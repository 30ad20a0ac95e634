/**
 * The mutable cursor object of the VT220 terminal and the renderer's use
 * of its copy.  Every setter is proved to move the object's state exactly
 * as `CursorModel.Apply` says; the lemmas about `CursorModel.Run` are
 * stated over those `Apply` steps.
 */
module Vt220 {
  import opened CursorModel

  class CursorImpl {
    var blinkRate: int32
    var visible: bool
    var x: int32
    var y: int32

    /** The object's attributes as a value. */
    function Value(): State
      reads this
    {
      State(blinkRate, visible, x, y)
    }

    /** The object invariant: the blink rate is never negative. */
    predicate Valid()
      reads this
    {
      CursorModel.Valid(Value())
    }

    /** A new cursor blinks every 500 ms, is visible and sits at (0, 0). */
    constructor ()
      ensures Valid()
      ensures Value() == Initial()
      ensures blinkRate == 500 && visible && x == 0 && y == 0
    {
      blinkRate := DefaultBlinkRate;
      visible := true;
      x := 0;
      y := 0;
    }

    /**
     * A new object with the same attributes.  It shares no state with this
     * one: a later change to either object leaves the other as it was.
     */
    method Clone() returns (c: CursorImpl)
      ensures fresh(c)
      ensures c.Value() == Value()
      ensures c.Valid() == Valid()
    {
      c := new CursorImpl();
      c.blinkRate := blinkRate;
      c.visible := visible;
      c.x := x;
      c.y := y;
    }

    /** The blink rate in ms, never negative while the invariant holds. */
    method GetBlinkRate() returns (rate: int32)
      ensures rate == blinkRate
      ensures Valid() ==> rate >= 0
    {
      rate := blinkRate;
    }

    /** The zero-based column. */
    method GetX() returns (col: int32)
      ensures col == x
    {
      col := x;
    }

    /** The zero-based row. */
    method GetY() returns (row: int32)
      ensures row == y
    {
      row := y;
    }

    /** Whether the cursor is shown. */
    method IsVisible() returns (shown: bool)
      ensures shown == visible
    {
      shown := visible;
    }

    /**
     * Sets the blink rate.  A negative rate is refused with
     * `InvalidBlinkRate` and changes nothing; otherwise only the blink rate
     * changes.
     */
    method SetBlinkRate(rate: int32) returns (outcome: Outcome)
      modifies this
      ensures Valid() == (old(Valid()) || rate >= 0)
      ensures outcome == Check(Op.SetBlinkRate(rate))
      ensures outcome.Rejected? <==> rate < 0
      ensures rate < 0 ==> Value() == old(Value())
      ensures rate >= 0 ==> blinkRate == rate
      ensures visible == old(visible) && x == old(x) && y == old(y)
      ensures Value() == Apply(old(Value()), Op.SetBlinkRate(rate))
    {
      if rate < 0 {
        return Rejected(InvalidBlinkRate);
      }
      blinkRate := rate;
      outcome := Accepted;
    }

    /** Shows or hides the cursor; nothing else changes. */
    method SetVisible(shown: bool)
      modifies this
      ensures Valid() == old(Valid())
      ensures visible == shown
      ensures blinkRate == old(blinkRate) && x == old(x) && y == old(y)
      ensures Value() == Apply(old(Value()), Op.SetVisible(shown))
    {
      visible := shown;
    }

    /**
     * Moves the cursor to exactly (col, row), without clamping: keeping the
     * position inside the screen is the caller's job.  Nothing else changes.
     */
    method SetPosition(col: int32, row: int32)
      modifies this
      ensures Valid() == old(Valid())
      ensures x == col && y == row
      ensures blinkRate == old(blinkRate) && visible == old(visible)
      ensures Value() == Apply(old(Value()), Op.SetPosition(col, row))
    {
      x := col;
      y := row;
    }
  }

  /**
   * The renderer keeps a copy of the terminal's cursor as the cursor of the
   * previous frame.  After the copy is taken, the live cursor is moved and
   * the copy gets a new blink rate: each object ends with its own change
   * only, so neither call reaches the other object.
   */
  method PreviousFrameIsIndependent(live: CursorImpl, col: int32, row: int32, rate: int32)
    returns (previous: CursorImpl)
    modifies live
    ensures fresh(previous) && previous != live
    ensures live.Valid() == old(live.Valid())
    ensures live.Value() == Apply(old(live.Value()), Op.SetPosition(col, row))
    ensures previous.Value() == Apply(old(live.Value()), Op.SetBlinkRate(rate))
  {
    previous := live.Clone();
    live.SetPosition(col, row);
    var _ := previous.SetBlinkRate(rate);
  }
}
