/**
 * Value-level specification of the VT220 terminal cursor: its four
 * attributes, the three setter calls as data, and what a run of calls
 * does to the cursor.  The class in module Vt220 is proved against
 * `Apply`; the lemmas here then say what any sequence of calls does.
 */
module CursorModel {

  /** Java's 32-bit `int`. */
  newtype int32 = x: int | -0x8000_0000 <= x < 0x8000_0000

  /** Default blink rate of a new cursor, in milliseconds. */
  const DefaultBlinkRate: int32 := 500

  /** The `IllegalArgumentException` raised by `setBlinkRate`. */
  datatype CursorError = InvalidBlinkRate

  /** Whether a call returned normally or raised an error. */
  datatype Outcome = Accepted | Rejected(error: CursorError)

  /** What a cursor holds: blink rate (ms), visibility and zero-based position. */
  datatype State = State(blinkRate: int32, visible: bool, x: int32, y: int32)

  /** The calls that change a cursor. */
  datatype Op =
    | SetBlinkRate(rate: int32)
    | SetVisible(visible: bool)
    | SetPosition(x: int32, y: int32)

  /** The cursor's invariant: the blink rate is never negative. */
  predicate Valid(s: State) {
    s.blinkRate >= 0
  }

  /** The state a freshly constructed cursor is in. */
  function Initial(): (s: State)
    ensures Valid(s)
  {
    State(DefaultBlinkRate, true, 0, 0)
  }

  /** Whether a call is accepted or raises an error; only a negative blink rate is refused. */
  function Check(op: Op): (o: Outcome)
    ensures o.Rejected? <==> op.SetBlinkRate? && op.rate < 0
  {
    if op.SetBlinkRate? && op.rate < 0 then Rejected(InvalidBlinkRate) else Accepted
  }

  /** The attributes `op` writes read back with the values `op` gave. */
  predicate Wrote(op: Op, r: State) {
    match op
    case SetBlinkRate(rate) => r.blinkRate == rate
    case SetVisible(v) => r.visible == v
    case SetPosition(x, y) => r.x == x && r.y == y
  }

  /** Every attribute `op` does not name is the same in `s` and `r`. */
  predicate KeptOthers(op: Op, s: State, r: State) {
    && (!op.SetBlinkRate? ==> r.blinkRate == s.blinkRate)
    && (!op.SetVisible? ==> r.visible == s.visible)
    && (!op.SetPosition? ==> r.x == s.x && r.y == s.y)
  }

  /**
   * The state after one call.  A rejected call leaves every attribute as
   * it was; an accepted one writes the attributes it names and no other.
   */
  function Apply(s: State, op: Op): (r: State)
    ensures Valid(s) ==> Valid(r)
    ensures Check(op).Rejected? ==> r == s
    ensures Check(op).Accepted? ==> Wrote(op, r)
    ensures KeptOthers(op, s, r)
  {
    match op
    case SetBlinkRate(rate) => if rate < 0 then s else s.(blinkRate := rate)
    case SetVisible(v) => s.(visible := v)
    case SetPosition(x, y) => s.(x := x, y := y)
  }

  /**
   * The state after issuing every call of `ops` in order, each rejected
   * call having been caught by its caller.
   */
  function Run(s: State, ops: seq<Op>): (r: State)
    decreases |ops|
  {
    if ops == [] then s else Run(Apply(s, ops[0]), ops[1..])
  }

  /** Running two batches one after the other is running their concatenation. */
  lemma {:induction false} RunAppend(s: State, a: seq<Op>, b: seq<Op>)
    ensures Run(s, a + b) == Run(Run(s, a), b)
    decreases |a|
  {
    if a == [] {
      assert a + b == b;
    } else {
      assert (a + b)[0] == a[0];
      assert (a + b)[1..] == a[1..] + b;
      RunAppend(Apply(s, a[0]), a[1..], b);
    }
  }

  /** Issuing one call more at the end is one more `Apply`. */
  lemma RunSnoc(s: State, ops: seq<Op>, op: Op)
    ensures Run(s, ops + [op]) == Apply(Run(s, ops), op)
  {
    RunAppend(s, ops, [op]);
  }

  /** The blink-rate invariant survives any sequence of calls. */
  lemma {:induction false} RunPreservesValid(s: State, ops: seq<Op>)
    requires Valid(s)
    ensures Valid(Run(s, ops))
    decreases |ops|
  {
    if ops != [] {
      RunPreservesValid(Apply(s, ops[0]), ops[1..]);
    }
  }

  /** Every cursor reachable from a new one has a non-negative blink rate. */
  lemma ReachableIsValid(ops: seq<Op>)
    ensures Valid(Run(Initial(), ops))
  {
    RunPreservesValid(Initial(), ops);
  }

  /**
   * Reference definition, read from the end of the call sequence: the rate
   * of the last accepted `SetBlinkRate`, or `default` when there is none.
   */
  function LastBlinkRate(ops: seq<Op>, default: int32): (rate: int32)
    decreases |ops|
  {
    if ops == [] then default
    else
      var op := ops[|ops| - 1];
      if op.SetBlinkRate? && op.rate >= 0 then op.rate
      else LastBlinkRate(ops[..|ops| - 1], default)
  }

  /** Reference definition: the visibility given by the last `SetVisible`, or `default`. */
  function LastVisible(ops: seq<Op>, default: bool): (shown: bool)
    decreases |ops|
  {
    if ops == [] then default
    else
      var op := ops[|ops| - 1];
      if op.SetVisible? then op.visible else LastVisible(ops[..|ops| - 1], default)
  }

  /** Reference definition: the position given by the last `SetPosition`, or `default`. */
  function LastPosition(ops: seq<Op>, default: (int32, int32)): (pos: (int32, int32))
    decreases |ops|
  {
    if ops == [] then default
    else
      var op := ops[|ops| - 1];
      if op.SetPosition? then (op.x, op.y) else LastPosition(ops[..|ops| - 1], default)
  }

  /** Splits off the last call of a non-empty sequence. */
  lemma SplitLast(s: State, ops: seq<Op>)
    requires ops != []
    ensures Run(s, ops) == Apply(Run(s, ops[..|ops| - 1]), ops[|ops| - 1])
  {
    var init, last := ops[..|ops| - 1], ops[|ops| - 1];
    assert ops == init + [last];
    assert last == ops[|ops| - 1];
    RunSnoc(s, init, last);
  }

  /**
   * After a run, the blink rate is the last accepted one: a rejected
   * `SetBlinkRate` and every other call leave it alone.
   */
  lemma {:induction false} RunBlinkRate(s: State, ops: seq<Op>)
    ensures Run(s, ops).blinkRate == LastBlinkRate(ops, s.blinkRate)
    decreases |ops|
  {
    if ops != [] {
      SplitLast(s, ops);
      RunBlinkRate(s, ops[..|ops| - 1]);
    }
  }

  /** After a run, the visibility is the one the last `SetVisible` gave. */
  lemma {:induction false} RunVisible(s: State, ops: seq<Op>)
    ensures Run(s, ops).visible == LastVisible(ops, s.visible)
    decreases |ops|
  {
    if ops != [] {
      SplitLast(s, ops);
      RunVisible(s, ops[..|ops| - 1]);
    }
  }

  /**
   * After a run, the position is exactly the one the last `SetPosition`
   * gave: it is stored as given, with no clamping.
   */
  lemma {:induction false} RunPosition(s: State, ops: seq<Op>)
    ensures (Run(s, ops).x, Run(s, ops).y) == LastPosition(ops, (s.x, s.y))
    decreases |ops|
  {
    if ops != [] {
      SplitLast(s, ops);
      RunPosition(s, ops[..|ops| - 1]);
    }
  }

  /** The calls of `ops` that are accepted, in order. */
  function AcceptedOps(ops: seq<Op>): (r: seq<Op>)
    ensures forall op :: op in r <==> op in ops && Check(op).Accepted?
    ensures (forall i :: 0 <= i < |ops| ==> Check(ops[i]).Accepted?) ==> r == ops
    ensures |r| <= |ops|
    decreases |ops|
  {
    if ops == [] then []
    else if Check(ops[0]).Rejected? then AcceptedOps(ops[1..])
    else [ops[0]] + AcceptedOps(ops[1..])
  }

  /** Dropping the rejected calls from a sequence does not change where it leads. */
  lemma {:induction false} RunIgnoresRejected(s: State, ops: seq<Op>)
    ensures Run(s, ops) == Run(s, AcceptedOps(ops))
    decreases |ops|
  {
    if ops != [] {
      RunIgnoresRejected(Apply(s, ops[0]), ops[1..]);
      if Check(ops[0]).Accepted? {
        var rest := AcceptedOps(ops[1..]);
        assert AcceptedOps(ops) == [ops[0]] + rest;
        assert ([ops[0]] + rest)[0] == ops[0];
        assert ([ops[0]] + rest)[1..] == rest;
      }
    }
  }
}
