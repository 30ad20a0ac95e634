# jVT220 terminal cursor, modelled in Dafny

jVT220 is a VT220 terminal emulator written in Java. This project models the
emulator's cursor object, `CursorImpl`. The object holds four attributes: a
blink rate in milliseconds, a visibility flag, and a zero-based column and row.
Its setters overwrite these attributes in place. `setBlinkRate` refuses negative
rates. `clone()` gives the Swing renderer an independent copy, which it keeps as
the cursor of the previous frame.

The project has two modules:

- `CursorModel` (`cursor_model.dfy`) is the value-level specification. It has:
  - Java's `int` as the newtype `int32`;
  - the cursor state as a datatype;
  - the three setter calls as a datatype `Op`;
  - `Apply`, which performs one call;
  - `Run`, which performs a sequence of calls.

  The lemmas here cover any sequence of calls. The blink-rate invariant
  survives every run. After a run, each attribute equals the value written by
  the last call that names it: the last *accepted* call, for the blink rate.
  Rejected calls can be dropped without changing the result. Each attribute's
  "last writer" is also given by a separate reference function that reads the
  call sequence from its end.
- `Vt220` (`vt220_cursor.dfy`) is the class `CursorImpl`. It has the same four
  fields. `modifies this` methods overwrite them, and each setter is proved to
  move the object's state (its `Value()`) exactly as `CursorModel.Apply` does.
  The `Run` lemmas are stated over `Apply` steps. They carry over to a series
  of setter calls on one object by chaining the setters' postconditions with
  `RunSnoc`, but no member of the class does that chaining. The getters are
  methods without a `modifies` clause, so they change no field. `Clone` returns
  a fresh object with equal fields. `PreviousFrameIsIndependent` models the
  renderer's use of the copy: once the copy is taken, a change to either object
  leaves the other unchanged.

`setBlinkRate`'s `IllegalArgumentException` is modelled as the result
`Rejected(InvalidBlinkRate)`, and the object is left unchanged. In `Run`, every
call of the sequence is issued. A rejected call leaves the state as it was, as
if its caller had caught the exception.

## Model

| member | source | states |
|---|---|---|
| `CursorModel.Initial` | src/nl/lxtreme/jvt220/terminal/vt220/CursorImpl.java:29-35 | the defaults of a new cursor (500 ms, visible, (0, 0)) satisfy the blink-rate invariant |
| `CursorModel.Check` | src/nl/lxtreme/jvt220/terminal/vt220/CursorImpl.java:100-105 | a call is refused exactly when it is `setBlinkRate` with a negative rate; every other call is accepted |
| `CursorModel.Apply` | src/nl/lxtreme/jvt220/terminal/vt220/CursorImpl.java:100-125 | one setter call: a refused call changes nothing; an accepted call makes the attributes it names read back with its arguments (no clamping), leaves every other attribute unchanged and keeps the invariant |
| `CursorModel.RunAppend` | src/nl/lxtreme/jvt220/terminal/vt220/CursorImpl.java:100-125 | running two batches of setter calls one after the other is the same as running their concatenation |
| `CursorModel.RunSnoc` | src/nl/lxtreme/jvt220/terminal/vt220/CursorImpl.java:100-125 | one more call at the end of a sequence is one more `Apply` on the state the sequence reached |
| `CursorModel.SplitLast` | src/nl/lxtreme/jvt220/terminal/vt220/CursorImpl.java:100-125 | the state after a non-empty sequence is its last call applied to the state after all the earlier calls |
| `CursorModel.RunPreservesValid` | src/nl/lxtreme/jvt220/terminal/vt220/CursorImpl.java:100-107 | starting from a non-negative blink rate, no sequence of setter calls makes it negative |
| `CursorModel.ReachableIsValid` | src/nl/lxtreme/jvt220/terminal/vt220/CursorImpl.java:29-35 | every cursor reachable from a new one by setter calls has a non-negative blink rate, because it starts at 500 and only non-negative rates are stored |
| `CursorModel.RunBlinkRate` | src/nl/lxtreme/jvt220/terminal/vt220/CursorImpl.java:64-67 | after any sequence of calls, the blink rate is the one given by the last accepted `setBlinkRate`, or the starting rate if there was none; refused rates and the other setters never touch it |
| `CursorModel.RunVisible` | src/nl/lxtreme/jvt220/terminal/vt220/CursorImpl.java:91-94 | after any sequence of calls, the visibility is the one given by the last `setVisible`, or the starting one; no other setter touches it |
| `CursorModel.RunPosition` | src/nl/lxtreme/jvt220/terminal/vt220/CursorImpl.java:73-85 | after any sequence of calls, the position is exactly the (x, y) given by the last `setPosition`, unclamped, or the starting position; no other setter touches it |
| `CursorModel.AcceptedOps` | src/nl/lxtreme/jvt220/terminal/vt220/CursorImpl.java:102-105 | keeps only the accepted calls: a call occurs in the result exactly when it occurs in the input and is accepted; a sequence with no refused call is returned unchanged; the result is no longer than the input |
| `CursorModel.RunIgnoresRejected` | src/nl/lxtreme/jvt220/terminal/vt220/CursorImpl.java:102-105 | removing every refused `setBlinkRate` call from a sequence leaves the final state unchanged |
| `Vt220.CursorImpl.constructor` | src/nl/lxtreme/jvt220/terminal/vt220/CursorImpl.java:29-35 | a new cursor has blink rate 500, is visible, sits at (0, 0) and satisfies the invariant |
| `Vt220.CursorImpl.Clone` | src/nl/lxtreme/jvt220/terminal/vt220/CursorImpl.java:43-52 | returns a freshly allocated object (so no later field update of one object reaches the other) whose four fields equal this one's |
| `Vt220.CursorImpl.GetBlinkRate` | src/nl/lxtreme/jvt220/terminal/vt220/CursorImpl.java:64-67 | returns the stored blink rate, which is non-negative while the invariant holds; changes no field |
| `Vt220.CursorImpl.GetX` | src/nl/lxtreme/jvt220/terminal/vt220/CursorImpl.java:73-76 | returns the stored column; changes no field |
| `Vt220.CursorImpl.GetY` | src/nl/lxtreme/jvt220/terminal/vt220/CursorImpl.java:82-85 | returns the stored row; changes no field |
| `Vt220.CursorImpl.IsVisible` | src/nl/lxtreme/jvt220/terminal/vt220/CursorImpl.java:91-94 | returns the stored visibility; changes no field |
| `Vt220.CursorImpl.SetBlinkRate` | src/nl/lxtreme/jvt220/terminal/vt220/CursorImpl.java:100-107 | refuses a negative rate with `InvalidBlinkRate` and leaves every field unchanged; otherwise stores the rate; never changes visibility or position; keeps the invariant; its new `Value()` is `Apply` of the old one |
| `Vt220.CursorImpl.SetVisible` | src/nl/lxtreme/jvt220/terminal/vt220/CursorImpl.java:113-116 | stores the visibility and changes no other field; its new `Value()` is `Apply` of the old one |
| `Vt220.CursorImpl.SetPosition` | src/nl/lxtreme/jvt220/terminal/vt220/CursorImpl.java:121-125 | stores exactly (x, y), without clamping, and leaves blink rate and visibility unchanged; its new `Value()` is `Apply` of the old one |
| `Vt220.PreviousFrameIsIndependent` | src/nl/lxtreme/jvt220/terminal/swing/SwingFrontend.java:439 | the renderer's previous-frame copy is a distinct fresh object: after it is taken, moving the live cursor leaves the copy unchanged, and changing the copy's blink rate leaves the live cursor unchanged |

## Left out

- The `CloneNotSupportedException` branch of `clone()` (CursorImpl.java:54-57) is left out. `Object.clone` raises that exception only for a class that does not implement `Cloneable`. `CursorImpl` declares only `implements ICursor` (CursorImpl.java:15), and `ICursor` is not part of this model. The model assumes `CursorImpl` is `Cloneable` through `ICursor`. Under that assumption the branch cannot be reached, and `Clone` is a plain fresh allocation.
- The `ICursor` interface is not part of this model. Only `CursorImpl`'s own behaviour is modelled.
- `SwingFrontend.java` is left out apart from its use of `clone()` at line 439. The rest is Swing rendering, font metrics, colour mapping, key bindings, `Writer` output and a background input worker, and none of it is cursor state.
- The escape-sequence parser, the screen buffer, dirty tracking and byte decoding are not part of this model. Their source is not among the modelled files. The screen buffer is the part that keeps the cursor inside the screen; the cursor itself stores any `int` position.
- Concurrency is left out. The cursor has no synchronisation of its own, and this model assumes a single thread uses it.
