/** Debounced reading of the active-low push buttons, the rule shared by
    the menu and the main loop: a read within 200 ms of the last accepted
    press is ignored; otherwise a button whose pin reads 0 counts as
    pressed and restarts the debounce window. The elapsed time since the
    last press (MicroPython's `ticks_diff`) is an input. */
module Buttons {
  import opened Wrappers

  /** Minimum spacing between two accepted presses, in milliseconds. */
  const DebounceMs := 200

  /** The pin level of a pressed button: every input is pulled up. */
  const PressedLevel := 0

  /** The outcome of one debounced read: whether it counts as a press, and
      the tick of the last accepted press afterwards. */
  datatype Read = Read(pressed: bool, lastPress: int)

  /** `_read_button(btn)` at tick `now`, `elapsed` ms after `lastPress`. */
  function ReadButton(lastPress: int, now: int, elapsed: int, level: int): (r: Read)
    ensures r.pressed <==> elapsed >= DebounceMs && level == PressedLevel
    ensures r.lastPress == (if r.pressed then now else lastPress)
  {
    if elapsed < DebounceMs then Read(false, lastPress)
    else if level == PressedLevel then Read(true, now)
    else Read(false, lastPress)
  }

  /** Two accepted presses are always at least `DebounceMs` apart: right
      after a press, a read less than 200 ms later is ignored whatever the
      pin says, and keeps the press time. */
  lemma PressesAreSpaced(lastPress: int, t0: int, e0: int, l0: int, t1: int, l1: int)
    requires ReadButton(lastPress, t0, e0, l0).pressed
    requires t1 - t0 < DebounceMs
    ensures var first := ReadButton(lastPress, t0, e0, l0);
            var second := ReadButton(first.lastPress, t1, t1 - first.lastPress, l1);
            !second.pressed && second.lastPress == t0
  {
  }

  /** A button released at read time never counts, and leaves the debounce
      state alone. */
  lemma ReleasedNeverCounts(lastPress: int, now: int, elapsed: int, level: int)
    requires level != PressedLevel
    ensures ReadButton(lastPress, now, elapsed, level) == Read(false, lastPress)
  {
  }

  /** The four navigation buttons, in the order they are polled. */
  datatype Button = Up | Down | Left | Right

  /** The pin levels of the four navigation buttons in one poll. */
  datatype Levels = Levels(up: int, down: int, left: int, right: int)

  function LevelOf(ls: Levels, b: Button): int
  {
    match b
    case Up => ls.up
    case Down => ls.down
    case Left => ls.left
    case Right => ls.right
  }

  /** Polling order: UP, then DOWN, LEFT, RIGHT. */
  function Rank(b: Button): nat
  {
    match b
    case Up => 0
    case Down => 1
    case Left => 2
    case Right => 3
  }

  /** One clock reading taken by a read: the tick `now` and the
      milliseconds elapsed since the last accepted press. */
  datatype Stamp = Stamp(now: int, elapsed: int)

  /** The clock reading of each button's read in one poll: every read of
      `handle_input` asks the clock again. */
  datatype Clock = Clock(up: Stamp, down: Stamp, left: Stamp, right: Stamp)

  function StampOf(clk: Clock, b: Button): Stamp
  {
    match b
    case Up => clk.up
    case Down => clk.down
    case Left => clk.left
    case Right => clk.right
  }

  /** Whether the read of `b` in this poll counts as a press, given that
      no earlier read of the poll did. */
  predicate Accepted(clk: Clock, ls: Levels, b: Button)
  {
    StampOf(clk, b).elapsed >= DebounceMs && LevelOf(ls, b) == PressedLevel
  }

  /** No read of the poll falls outside the debounce window. */
  predicate Bouncing(clk: Clock)
  {
    clk.up.elapsed < DebounceMs && clk.down.elapsed < DebounceMs &&
    clk.left.elapsed < DebounceMs && clk.right.elapsed < DebounceMs
  }

  /** The `if/elif` chain of `handle_input`: the buttons are read in order
      and the first accepted press wins; the reads after it do not happen.
      A read that is not a press leaves the debounce state alone, so every
      read of a poll measures from the same last press, each at its own
      tick. */
  function Poll(lastPress: int, clk: Clock, ls: Levels): (r: (Option<Button>, int))
    ensures r.0.None? ==> r.1 == lastPress
    ensures r.0.Some? ==> r.1 == StampOf(clk, r.0.value).now
  {
    var up := ReadButton(lastPress, clk.up.now, clk.up.elapsed, ls.up);
    if up.pressed then (Some(Up), up.lastPress)
    else
      var down := ReadButton(up.lastPress, clk.down.now, clk.down.elapsed, ls.down);
      if down.pressed then (Some(Down), down.lastPress)
      else
        var left := ReadButton(down.lastPress, clk.left.now, clk.left.elapsed, ls.left);
        if left.pressed then (Some(Left), left.lastPress)
        else
          var right := ReadButton(left.lastPress, clk.right.now, clk.right.elapsed, ls.right);
          if right.pressed then (Some(Right), right.lastPress)
          else (None, right.lastPress)
  }

  /** The poll selects `b` exactly when its own read is outside the
      debounce window with `b` held down, and no read before it was
      accepted. */
  lemma PollPicksFirstPressed(lastPress: int, clk: Clock, ls: Levels, b: Button)
    ensures Poll(lastPress, clk, ls).0 == Some(b) <==>
            Accepted(clk, ls, b) && forall c: Button :: Rank(c) < Rank(b) ==> !Accepted(clk, ls, c)
  {
    forall c: Button | Rank(c) < Rank(b)
      ensures c == Up || (c == Down && Rank(b) >= 2) || (c == Left && b == Right)
    {
    }
    if b != Up {
      assert Rank(Up) < Rank(b);
    }
    if b == Left || b == Right {
      assert Rank(Down) < Rank(b);
    }
    if b == Right {
      assert Rank(Left) < Rank(b);
    }
  }

  /** When every read of a poll falls within the debounce window, nothing
      is pressed. */
  lemma PollIgnoresBounce(lastPress: int, clk: Clock, ls: Levels)
    requires Bouncing(clk)
    ensures Poll(lastPress, clk, ls) == (None, lastPress)
  {
  }

  /** The window can open between two reads of one poll: with UP and
      DOWN both held, UP read 199 ms after the last press and DOWN read at
      200 ms, the poll takes DOWN. */
  lemma LaterReadCanOpenWindow(lastPress: int)
    ensures var clk := Clock(Stamp(lastPress + 199, 199), Stamp(lastPress + 200, 200),
                             Stamp(lastPress + 200, 200), Stamp(lastPress + 200, 200));
            Poll(lastPress, clk, Levels(0, 0, 1, 1)) == (Some(Down), lastPress + 200)
  {
  }
}
