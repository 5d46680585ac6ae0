/**
 The server's text-change engine: every change record of a `text-change`
 message splices the workspace buffer with JavaScript `slice`, in list order.
 There is no transformation against concurrent edits; the buffer is the fold
 of the splices in arrival order.
 */
module Splice {
  import opened Js

  /** How `String.prototype.slice` turns one index argument into a position. */
  function SliceIndex(i: int, len: nat): (k: nat)
    ensures k <= len
    ensures 0 <= i <= len ==> k == i
    ensures i > len ==> k == len
    ensures i < 0 ==> k == (if len + i < 0 then 0 else len + i)
  {
    if i < 0 then (if len + i < 0 then 0 else len + i)
    else if i > len then len
    else i
  }

  /** `s.slice(start, end)`: clamped indices, and the empty string when they cross. */
  function Slice(s: string, start: int, end: int): string {
    var from := SliceIndex(start, |s|);
    var to := SliceIndex(end, |s|);
    if from < to then s[from..to] else ""
  }

  /** One change record; a missing field is `None`. */
  datatype Change = Change(rangeOffset: Option<int>, rangeLength: Option<int>, text: Option<string>)

  /**
   The payload of a `text-change` message. `changes` may be missing from a
   malformed one, and an element may be `null` or `undefined` (`None`), where
   reading `rangeOffset` throws. A primitive element has none of the fields
   and stands as `Change(None, None, None)`.
   */
  datatype TextChange = TextChange(changes: Option<seq<Option<Change>>>)

  /** The records `forEach` reaches before the first `null` or `undefined` element. */
  function LeadingRecords(items: seq<Option<Change>>): (r: seq<Change>)
    ensures |r| <= |items|
    ensures forall i :: 0 <= i < |r| ==> items[i] == Some(r[i])
    ensures |r| < |items| ==> items[|r|].None?
    decreases |items|
  {
    if |items| == 0 || items[0].None? then [] else [items[0].value] + LeadingRecords(items[1..])
  }

  /** A list of records with no `null` among them, as a `changes` list. */
  function AsItems(changes: seq<Change>): (items: seq<Option<Change>>)
    ensures |items| == |changes|
    ensures forall i :: 0 <= i < |changes| ==> items[i] == Some(changes[i])
  {
    seq(|changes|, i requires 0 <= i < |changes| => Some(changes[i]))
  }

  function Start(c: Change): int { c.rangeOffset.GetOr(0) }

  function End(c: Change): int { c.rangeOffset.GetOr(0) + c.rangeLength.GetOr(0) }

  function Inserted(c: Change): string { c.text.GetOr("") }

  /** `text.slice(0, start) + text + text.slice(end)` for one record. */
  function ApplyChange(buffer: string, c: Change): string {
    Slice(buffer, 0, Start(c)) + Inserted(c) + Slice(buffer, End(c), |buffer|)
  }

  /** `changes.forEach(...)`: the records applied left to right. */
  function ApplyChanges(buffer: string, changes: seq<Change>): string
    decreases |changes|
  {
    if |changes| == 0 then buffer else ApplyChanges(ApplyChange(buffer, changes[0]), changes[1..])
  }

  // ---------------------------------------------------------------------------
  // One record

  /**
   Cutting a string at any index with two `slice` calls, as a record does at
   its start and its end, loses and repeats nothing: the two pieces put
   together give the string back, for negative and past-end indices too.
   */
  lemma SliceSplit(s: string, k: int)
    ensures Slice(s, 0, k) + Slice(s, k, |s|) == s
    ensures |Slice(s, 0, k)| == SliceIndex(k, |s|)
  {
    var m := SliceIndex(k, |s|);
    assert Slice(s, 0, k) == s[..m];
    assert Slice(s, k, |s|) == s[m..];
    assert s[..m] + s[m..] == s;
  }

  /**
   The contents after one record, for every input, negative numbers included:
   the buffer up to the clamped start, the inserted text, and the buffer from
   the clamped end (so a negative length duplicates text).
   */
  lemma ApplyChangeContents(buffer: string, c: Change)
    ensures ApplyChange(buffer, c) ==
              buffer[..SliceIndex(Start(c), |buffer|)] + Inserted(c) + buffer[SliceIndex(End(c), |buffer|)..]
  {
  }

  /** Inside the buffer a record replaces exactly `rangeLength` characters at `rangeOffset`. */
  lemma ApplyChangeInRange(buffer: string, s: int, l: int, t: string)
    requires 0 <= s && 0 <= l && s + l <= |buffer|
    ensures ApplyChange(buffer, Change(Some(s), Some(l), Some(t))) == buffer[..s] + t + buffer[s + l..]
    ensures |ApplyChange(buffer, Change(Some(s), Some(l), Some(t)))| == |buffer| - l + |t|
  {
  }

  /** An offset at or past the end appends the text. */
  lemma ApplyChangePastEnd(buffer: string, s: int, l: int, t: string)
    requires |buffer| <= s && 0 <= l
    ensures ApplyChange(buffer, Change(Some(s), Some(l), Some(t))) == buffer + t
  {
    assert buffer[..|buffer|] == buffer;
  }

  /** A record with every field missing inserts nothing at offset 0. */
  lemma ApplyEmptyRecord(buffer: string)
    ensures ApplyChange(buffer, Change(None, None, None)) == buffer
  {
    assert buffer[0..] == buffer;
  }

  /**
   An in-range record is undone by the record that puts the removed text back
   over the inserted text.
   */
  lemma {:induction false} ApplyChangeUndo(buffer: string, s: int, l: int, t: string)
    requires 0 <= s && 0 <= l && s + l <= |buffer|
    ensures var edited := ApplyChange(buffer, Change(Some(s), Some(l), Some(t)));
            ApplyChange(edited, Change(Some(s), Some(|t|), Some(buffer[s..s + l]))) == buffer
  {
    var edited := ApplyChange(buffer, Change(Some(s), Some(l), Some(t)));
    var removed := buffer[s..s + l];
    ApplyChangeInRange(buffer, s, l, t);
    EditedPieces(buffer, s, l, t, edited);
    ApplyChangeInRange(edited, s, |t|, removed);
    Reassemble(buffer, s, l);
  }

  /** A buffer is its prefix, the range after it and the rest, put back together. */
  lemma Reassemble(buffer: string, s: nat, l: nat)
    requires s + l <= |buffer|
    ensures buffer[..s] + buffer[s..s + l] + buffer[s + l..] == buffer
  {
    assert buffer[..s] + buffer[s..s + l] == buffer[..s + l];
  }

  /** The three pieces of a buffer after an in-range record: the kept prefix, the inserted text, the kept suffix. */
  lemma EditedPieces(buffer: string, s: nat, l: nat, t: string, edited: string)
    requires s + l <= |buffer|
    requires edited == buffer[..s] + t + buffer[s + l..]
    ensures |edited| == |buffer| - l + |t|
    ensures edited[..s] == buffer[..s]
    ensures edited[s..s + |t|] == t
    ensures edited[s + |t|..] == buffer[s + l..]
  {
    assert (buffer[..s] + t)[..s] == buffer[..s];
  }

  // ---------------------------------------------------------------------------
  // Lists of records

  /** Applying a concatenation is applying the halves one after the other. */
  lemma {:induction false} ApplyChangesAppend(buffer: string, xs: seq<Change>, ys: seq<Change>)
    ensures ApplyChanges(buffer, xs + ys) == ApplyChanges(ApplyChanges(buffer, xs), ys)
    decreases |xs|
  {
    if |xs| == 0 {
      assert xs + ys == ys;
    } else {
      assert (xs + ys)[0] == xs[0];
      assert (xs + ys)[1..] == xs[1..] + ys;
      ApplyChangesAppend(ApplyChange(buffer, xs[0]), xs[1..], ys);
    }
  }

  /** The worked example: `"hello"` with an insertion of `" world"` at offset 5. */
  lemma HelloWorld()
    ensures ApplyChanges("hello", [Change(Some(5), Some(0), Some(" world"))]) == "hello world"
  {
    ApplyChangeInRange("hello", 5, 0, " world");
    assert "hello"[..5] == "hello";
    assert "hello"[5..] == "";
  }

  /** Reading the records of a list that holds no `null` gives the list back. */
  lemma {:induction false} LeadingRecordsOfRecords(changes: seq<Change>)
    ensures LeadingRecords(AsItems(changes)) == changes
    decreases |changes|
  {
    if |changes| > 0 {
      assert AsItems(changes)[1..] == AsItems(changes[1..]);
      LeadingRecordsOfRecords(changes[1..]);
      assert [changes[0]] + changes[1..] == changes;
    }
  }

  /**
   The server's `forEach` loop over the elements of a message: records are
   applied in list order, and the first `null` element stops the loop with a
   `TypeError` after the records before it have been applied. A missing
   `changes` list makes the real handler throw; that case is the caller's.
   */
  method ApplyTextChange(buffer: string, items: seq<Option<Change>>) returns (text: string, completed: bool)
    ensures text == ApplyChanges(buffer, LeadingRecords(items))
    ensures completed <==> forall i :: 0 <= i < |items| ==> items[i].Some?
    ensures |items| == 0 ==> text == buffer && completed
  {
    text := buffer;
    var i := 0;
    while i < |items| && items[i].Some?
      invariant 0 <= i <= |items|
      invariant forall j :: 0 <= j < i ==> items[j].Some?
      invariant ApplyChanges(text, LeadingRecords(items[i..])) == ApplyChanges(buffer, LeadingRecords(items))
    {
      LeadingRecordsStep(items, i);
      text := ApplyChange(text, items[i].value);
      i := i + 1;
    }
    completed := i == |items|;
    if i < |items| {
      assert items[i..][0].None?;
    }
    assert LeadingRecords(items[i..]) == [];
  }

  /** One turn of the loop: a record at `i` leads the records from `i` on. */
  lemma LeadingRecordsStep(items: seq<Option<Change>>, i: nat)
    requires i < |items| && items[i].Some?
    ensures LeadingRecords(items[i..]) == [items[i].value] + LeadingRecords(items[i + 1..])
  {
    assert items[i..][0] == items[i];
    assert items[i..][1..] == items[i + 1..];
  }
}
