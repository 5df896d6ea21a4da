/** The Home component: the six pieces of screen state as fields of one
    object, updated in place by the play button, the notification close
    actions, the cooldown timer and the two input controls. Each method is
    proved against the matching transition of the Game state machine. */
module HomePage {
  import opened Round
  import opened Ledger
  import opened Notices
  import opened Game

  class Home {
    var mode: GuessMode
    var threshold: int
    var currentResult: int
    var history: seq<HistoryItem>
    var isCoolingDown: bool
    var notifications: seq<NotificationItem>

    /** The component's state as a value of the state machine. */
    function Snapshot(): State
      reads this
    {
      State(mode, threshold, currentResult, history, isCoolingDown, notifications)
    }

    ghost predicate Valid()
      reads this
    {
      Inv(Snapshot())
    }

    /** The state of the first render. */
    constructor ()
      ensures Valid()
      ensures Snapshot() == Initial()
    {
      mode := Under;
      threshold := 20;
      currentResult := 100;
      history := [];
      isCoolingDown := false;
      notifications := [];
    }

    /** The play button; `accepted` is false exactly when the press fell in
        the cooldown window and was ignored. */
    method Play(draw: Draw) returns (accepted: bool)
      requires Valid() && InRange(draw.value)
      modifies this
      ensures Valid()
      ensures accepted == !old(isCoolingDown)
      ensures Snapshot() == Game.Play(old(Snapshot()), draw)
    {
      if isCoolingDown {
        return false;
      }
      isCoolingDown := true;
      var value := draw.value;
      var outcome := Evaluate(mode, threshold, value);
      currentResult := value;
      notifications := Push(NotificationItem(draw.notificationId, outcome.win, outcome.detail), notifications);
      var item := HistoryItem(draw.historyId, draw.time, mode, threshold, value, outcome.win);
      history := Record(item, history);
      accepted := true;
    }

    /** Closing a notification: its close button, its auto-hide timer, a
        click-away or Escape. */
    method RemoveNotification(id: string)
      requires Valid()
      modifies this
      ensures Valid()
      ensures Snapshot() == Dismiss(old(Snapshot()), id)
    {
      notifications := RemoveId(notifications, id);
    }

    /** The cooldown timer firing. */
    method CooldownExpired()
      requires Valid()
      modifies this
      ensures Valid()
      ensures Snapshot() == Game.CooldownExpired(old(Snapshot()))
    {
      isCoolingDown := false;
    }

    /** The radio group. */
    method SetMode(m: GuessMode)
      requires Valid()
      modifies this
      ensures Valid()
      ensures Snapshot() == SelectMode(old(Snapshot()), m)
    {
      mode := m;
    }

    /** The slider, whose value never leaves MinValue..MaxValue. */
    method SetThreshold(t: int)
      requires Valid() && InRange(t)
      modifies this
      ensures Valid()
      ensures Snapshot() == SelectThreshold(old(Snapshot()), t)
    {
      threshold := t;
    }
  }

  /** A client of Home: two presses inside the cooldown window, proved from
      the method contracts alone. */
  method QuickPresses()
  {
    var home := new Home();
    home.SetThreshold(50);

    // Under 50, the draw 30 wins and says nothing more.
    var ok := home.Play(Draw(30, "n1", "h1", "12:00:00"));
    assert ok && home.currentResult == 30;
    assert home.history[0].win && home.notifications[0].detail == "";

    // A second press inside the cooldown window is ignored.
    var before := home.Snapshot();
    ok := home.Play(Draw(70, "n2", "h2", "12:00:00"));
    assert !ok && home.Snapshot() == before;

    // Once the timer fires, a press is accepted again.
    home.CooldownExpired();
    ok := home.Play(Draw(70, "n3", "h3", "12:00:01"));
    assert ok && home.currentResult == 70;
    assert |home.history| == 2 && home.history[1].id == "h1";
  }

  /** A client of Home: the two loss texts. */
  method LossTexts()
  {
    var home := new Home();
    home.SetThreshold(50);

    // Over 50, the draw 30 loses: "lower".
    home.SetMode(Over);
    var ok := home.Play(Draw(30, "n1", "h1", "12:00:00"));
    assert ok && !home.history[0].win && home.notifications[0].detail == LowerText;

    // Under 50, the draw 50 loses: "higher".
    home.CooldownExpired();
    home.SetMode(Under);
    ok := home.Play(Draw(50, "n2", "h2", "12:00:01"));
    assert ok && !home.history[0].win && home.notifications[0].detail == HigherText;
  }
}
