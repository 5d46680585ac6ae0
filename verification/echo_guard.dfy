/**
 The current clients' `blockChange` flag. A remote `workspace` or
 `text-change` sets it before handing the text to Monaco (`setValue`,
 `applyEdits`); the next content-change event is then swallowed and clears
 it. Whether Monaco fires that event for a given remote update is its own
 business, so each remote update says whether it did.
 */
module EchoGuard {

  /** What the editor goes through, in order; local edits carry a label to follow them. */
  datatype Event =
    | Remote(firesContentEvent: bool)
    | Local(edit: nat)

  /**
   The `onDidChangeModelContent` handler: a set flag is cleared and nothing is
   sent; a clear flag lets the event through.
   */
  function OnContentChange(blockChange: bool): (r: (bool, bool))
    ensures !r.0
    ensures r.1 <==> !blockChange
  {
    if blockChange then (false, false) else (false, true)
  }

  /** One event: the flag afterwards and the local edits sent to the server. */
  function Step(blockChange: bool, e: Event): (r: (bool, seq<nat>))
    ensures e.Remote? ==> r.1 == []
    ensures e.Remote? ==> (r.0 <==> !e.firesContentEvent)
    ensures e.Local? ==> !r.0 && (r.1 == [e.edit] <==> !blockChange) && (r.1 == [] <==> blockChange)
  {
    match e
    case Remote(fires) =>
      if fires then (OnContentChange(true).0, []) else (true, [])
    case Local(x) =>
      var (after, send) := OnContentChange(blockChange);
      (after, if send then [x] else [])
  }

  function Run(blockChange: bool, trace: seq<Event>): (r: (bool, seq<nat>))
    decreases |trace|
  {
    if |trace| == 0 then (blockChange, [])
    else
      var (after, sent) := Step(blockChange, trace[0]);
      var (final, rest) := Run(after, trace[1..]);
      (final, sent + rest)
  }

  /** The labels of the local edits in a trace, in order. */
  function Locals(trace: seq<Event>): seq<nat>
    decreases |trace|
  {
    if |trace| == 0 then []
    else (if trace[0].Local? then [trace[0].edit] else []) + Locals(trace[1..])
  }

  /** How many remote updates set the flag without a content event to clear it. */
  function Unconsumed(trace: seq<Event>): nat
    decreases |trace|
  {
    if |trace| == 0 then 0
    else (if trace[0].Remote? && !trace[0].firesContentEvent then 1 else 0) + Unconsumed(trace[1..])
  }

  function B2N(b: bool): nat {
    if b then 1 else 0
  }

  // ---------------------------------------------------------------------------

  /**
   When every remote update fires its content event, the flag never outlives
   it: every local edit is sent, in order, and the flag ends clear.
   */
  lemma {:induction false} NoEditLostWhenRemotesFire(trace: seq<Event>)
    requires forall i :: 0 <= i < |trace| ==> trace[i].Remote? ==> trace[i].firesContentEvent
    ensures Run(false, trace) == (false, Locals(trace))
    decreases |trace|
  {
    if |trace| > 0 {
      NoEditLostWhenRemotesFire(trace[1..]);
    }
  }

  /**
   The edits sent are the local edits in order with some dropped, and each
   dropped edit used up the flag of a remote update that fired nothing (or the
   flag already set at the start).
   */
  lemma {:induction false} SuppressionBound(blockChange: bool, trace: seq<Event>)
    ensures var (final, sent) := Run(blockChange, trace);
            && IsSubsequence(sent, Locals(trace))
            && |Locals(trace)| - |sent| + B2N(final) <= Unconsumed(trace) + B2N(blockChange)
    decreases |trace|
  {
    if |trace| == 0 {
      assert IsSubsequence([], []);
    } else {
      var (after, head) := Step(blockChange, trace[0]);
      var (final, rest) := Run(after, trace[1..]);
      SuppressionBound(after, trace[1..]);
      var locals := Locals(trace[1..]);
      assert Run(blockChange, trace) == (final, head + rest);
      if head == [] {
        assert head + rest == rest;
        if trace[0].Local? {
          assert Locals(trace) == [trace[0].edit] + locals;
          assert ([trace[0].edit] + locals)[1..] == locals;
        } else {
          assert Locals(trace) == locals;
        }
      } else {
        assert trace[0].Local? && head == [trace[0].edit];
        assert Locals(trace) == [trace[0].edit] + locals;
        assert ([trace[0].edit] + locals)[1..] == locals;
        assert (head + rest)[1..] == rest;
      }
    }
  }

  /** `xs` is `ys` with some elements left out. */
  predicate IsSubsequence(xs: seq<nat>, ys: seq<nat>)
    decreases |ys|
  {
    if |ys| == 0 then |xs| == 0
    else IsSubsequence(xs, ys[1..]) || (|xs| > 0 && xs[0] == ys[0] && IsSubsequence(xs[1..], ys[1..]))
  }

  /**
   A remote update that changes nothing in Monaco leaves the flag set, and the
   user's next own edit is never sent.
   */
  lemma SilentRemoteSwallowsNextEdit(x: nat, y: nat)
    ensures Run(false, [Remote(false), Local(x), Local(y)]) == (false, [y])
  {
    SwallowOne(x, y);
    var t := [Remote(false), Local(x), Local(y)];
    assert Step(false, t[0]) == (true, []) && t[1..] == [Local(x), Local(y)];
    assert [] + [y] == [y];
  }

  /** With the flag set, of two local edits only the second is sent. */
  lemma SwallowOne(x: nat, y: nat)
    ensures Run(true, [Local(x), Local(y)]) == (false, [y])
  {
    var t := [Local(y)];
    assert Step(false, t[0]) == (false, [y]) && t[1..] == [];
    assert [y] + [] == [y];
    assert Run(false, t) == (false, [y]);
    var u := [Local(x), Local(y)];
    assert Step(true, u[0]) == (false, []) && u[1..] == t;
    assert [] + [y] == [y];
  }

  /** The flag is not a counter: two silent remote updates still swallow one edit only. */
  lemma FlagIsNotACounter(x: nat, y: nat)
    ensures Run(false, [Remote(false), Remote(false), Local(x), Local(y)]) == (false, [y])
  {
    SwallowOne(x, y);
    var t := [Remote(false), Local(x), Local(y)];
    assert Step(true, t[0]) == (true, []) && t[1..] == [Local(x), Local(y)];
    assert [] + [y] == [y];
    assert Run(true, t) == (false, [y]);
    var u := [Remote(false), Remote(false), Local(x), Local(y)];
    assert Step(false, u[0]) == (true, []) && u[1..] == t;
  }
}
