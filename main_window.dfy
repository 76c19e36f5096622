/**
 * The state of the timer window (`MainWindow` in Pomodoro/MainWindow.xaml.cs)
 * that its event handlers update in place: the drag gate, the minimized
 * flag, the countdown fields and the text on the dial. The pointer geometry
 * that turns a mouse position into a whole number of seconds is not part of
 * this model; the drag handler receives that number instead.
 */
module PomodoroWindow {

  import opened Countdown
  import opened ClockText

  /** Whether the window counts itself minimized, and whether it is visible. */
  datatype Chrome = Chrome(minimized: bool, shown: bool)

  /**
   * `ToggleMinimize`: a minimized window is shown, any other is hidden, and
   * the flag flips.
   */
  function Toggle(w: Chrome): (r: Chrome)
    ensures r.minimized == !w.minimized
    ensures r.shown != r.minimized
  {
    if w.minimized then Chrome(false, true) else Chrome(true, false)
  }

  /**
   * Two toggles always restore the flag; they restore the whole window
   * exactly when its visibility agreed with the flag to begin with.
   */
  lemma ToggleTwice(w: Chrome)
    ensures Toggle(Toggle(w)).minimized == w.minimized
    ensures Toggle(Toggle(w)) == w <==> w.shown != w.minimized
  {
  }

  /**
   * The expiring tick shows the window without clearing the flag. From
   * there the next Minimize click hides nothing: it shows the window again
   * and clears the flag, and only the click after that hides it.
   */
  lemma ToggleAfterPopUp()
    ensures Toggle(Chrome(true, true)) == Chrome(false, true)
    ensures Toggle(Toggle(Chrome(true, true))) == Chrome(true, false)
  {
  }

  /**
   * The first move of a drag over a running countdown renders the new total
   * against the old count; once the count exceeds the new total the dial
   * shows a negative time, which prints as no `MM:SS` clock at all.
   */
  lemma StaleDragText(c: Clock, t: nat)
    requires Inv(c) && c.running && c.total < 3600 && t < c.count
    ensures ParseClock(FormatClock(t - c.count)) == None
    ensures Commit(c, t) == Clock(t, 0, true)
  {
    NegativeClockText(t - c.count);
  }

  class MainWindow {
    var mouseDown: bool
    var minimized: bool
    /** Visibility of the window, driven by `Show`, `Hide` and expiry. */
    var shown: bool
    var totalSeconds: int
    var count: int
    /** Whether the one-second timer is enabled. */
    var running: bool
    /** The text of the dial's text block. */
    var text: string
    /** Notification sounds played so far. */
    ghost var sounds: nat
    /** Times the window was brought to the front. */
    ghost var activations: nat

    function State(): Clock
      reads this
    {
      Clock(totalSeconds, count, running)
    }

    function Window(): Chrome
      reads this
    {
      Chrome(minimized, shown)
    }

    ghost predicate Valid()
      reads this
    {
      Inv(State()) && (!shown ==> minimized)
    }

    /** The text block starts with whatever the view declares. */
    constructor (initialText: string)
      ensures Valid()
      ensures State() == Idle && text == initialText
      ensures !mouseDown && !minimized && shown
      ensures sounds == 0 && activations == 0
    {
      mouseDown := false;
      minimized := false;
      shown := true;
      totalSeconds := 0;
      count := 0;
      running := false;
      text := initialText;
      sounds := 0;
      activations := 0;
    }

    method ToggleMinimize()
      requires Valid()
      modifies this`minimized, this`shown
      ensures Valid()
      ensures Window() == Toggle(old(Window()))
    {
      if minimized {
        shown := true;
        minimized := false;
      } else {
        shown := false;
        minimized := true;
      }
    }

    method MouseDown()
      modifies this`mouseDown
      ensures mouseDown
    {
      mouseDown := true;
    }

    method MouseUp()
      modifies this`mouseDown
      ensures !mouseDown
    {
      mouseDown := false;
    }

    method MouseLeave()
      modifies this`mouseDown
      ensures !mouseDown
    {
      mouseDown := false;
    }

    /** Renders `total` minus the current count, whatever the count is. */
    method SetDialText(total: int)
      modifies this`text
      ensures text == FormatClock(total - count)
    {
      text := FormatClock(total - count);
    }

    /** Commits a new total of `t` seconds and (re)starts the timer. */
    method SetTimer(t: nat)
      requires Valid()
      modifies this`totalSeconds, this`count, this`running
      ensures Valid()
      ensures State() == Commit(old(State()), t)
      ensures totalSeconds == t && count == 0 && running
    {
      totalSeconds := t;
      if running {
        count := 0;
        running := false;
      }
      running := true;
    }

    /**
     * A drag step. Nothing happens unless the button is held; otherwise the
     * dial text is rendered for the new total with the count as it stands,
     * and only then is the total committed.
     */
    method MouseMove(t: nat)
      requires Valid()
      modifies this`text, this`totalSeconds, this`count, this`running
      ensures Valid()
      ensures !old(mouseDown) ==> unchanged(this)
      ensures old(mouseDown) ==> text == FormatClock(t - old(count))
      ensures old(mouseDown) ==> State() == Commit(old(State()), t) && State() == Clock(t, 0, true)
    {
      if !mouseDown {
        return;
      }
      SetDialText(t);
      SetTimer(t);
    }

    /**
     * One elapse of the running timer: show the remaining time, count the
     * second, and on counting past the total stop, show the done marker,
     * play the sound and bring the window up.
     */
    method OnTimerElapsed()
      requires Valid() && running
      modifies this`count, this`running, this`text, this`shown, this`sounds, this`activations
      ensures Valid()
      ensures State() == Tick(old(State()))
      ensures old(Remaining(State())) >= 0
      ensures text == if Expires(old(State())) then Done else FormatClock(old(Remaining(State())))
      ensures sounds == old(sounds) + (if Expires(old(State())) then 1 else 0)
      ensures activations == old(activations) + (if Expires(old(State())) then 1 else 0)
      ensures shown == (old(shown) || Expires(old(State())))
      ensures minimized == old(minimized)
    {
      SetDialText(totalSeconds);
      count := count + 1;
      if totalSeconds < count {
        count := 0;
        running := false;
        text := Done;
        sounds := sounds + 1;
        shown := true;
        activations := activations + 1;
      }
    }
  }
}
