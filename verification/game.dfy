/** The round controller as a pure state machine over the six pieces of
    state of the game screen, with one transition per event: a play, a
    dismissed notification, the cooldown timer firing, and the two setters. */
module Game {
  import opened Round
  import opened Ledger
  import opened Notices

  datatype State = State(
    mode: GuessMode,
    threshold: int,
    currentResult: int,
    history: seq<HistoryItem>,
    isCoolingDown: bool,
    notifications: seq<NotificationItem>)

  /** What a play needs from the outside world: the drawn number, the two
      fresh ids and the formatted clock time. */
  datatype Draw = Draw(value: int, notificationId: string, historyId: string, time: string)

  /** The screen as first rendered: mode Under, threshold 20, 100 displayed,
      no history, no cooldown, no notifications. */
  function Initial(): (s: State)
    ensures Inv(s)
    ensures s.mode == Under && s.threshold == 20 && s.currentResult == 100
    ensures s.history == [] && s.notifications == [] && !s.isCoolingDown
  {
    State(Under, 20, 100, [], false, [])
  }

  /** A history row agrees with the win rule and stays in range. */
  predicate ItemConsistent(h: HistoryItem) {
    InRange(h.threshold) && InRange(h.result) && h.win == Wins(h.mode, h.threshold, h.result)
  }

  /** A notification's text is empty exactly on a win and is one of the two
      loss texts otherwise. */
  predicate NoticeConsistent(n: NotificationItem) {
    (n.win ==> n.detail == "") && (!n.win ==> n.detail == HigherText || n.detail == LowerText)
  }

  /** What holds of every state the screen can reach. */
  predicate Inv(s: State) {
    && InRange(s.threshold)
    && InRange(s.currentResult)
    && |s.history| <= HistoryLimit
    && (forall h :: h in s.history ==> ItemConsistent(h))
    && (forall n :: n in s.notifications ==> NoticeConsistent(n))
  }

  /** The play button. While cooling down it does nothing; otherwise it arms
      the cooldown, shows the drawn number, pushes a notification and records
      a history row, both carrying the one outcome computed for this play. */
  function Play(s: State, d: Draw): (t: State)
    requires InRange(d.value)
    ensures s.isCoolingDown ==> t == s
    ensures !s.isCoolingDown ==>
      && t.isCoolingDown
      && t.currentResult == d.value && InRange(t.currentResult)
      && t.mode == s.mode && t.threshold == s.threshold
      && |t.history| == (if |s.history| < HistoryLimit then |s.history| + 1 else HistoryLimit)
      && t.history[0] == HistoryItem(d.historyId, d.time, s.mode, s.threshold, d.value,
                                     Wins(s.mode, s.threshold, d.value))
      && t.history[1..] == s.history[..|t.history| - 1]
      && |t.notifications| == |s.notifications| + 1
      && t.notifications[0] == NotificationItem(d.notificationId, t.history[0].win,
                                                Evaluate(s.mode, s.threshold, d.value).detail)
      && t.notifications[1..] == s.notifications
    ensures Inv(s) ==> Inv(t)
  {
    if s.isCoolingDown then s
    else
      var o := Evaluate(s.mode, s.threshold, d.value);
      var t := s.(
        isCoolingDown := true,
        currentResult := d.value,
        notifications := Push(NotificationItem(d.notificationId, o.win, o.detail), s.notifications),
        history := Record(HistoryItem(d.historyId, d.time, s.mode, s.threshold, d.value, o.win), s.history));
      assert Inv(s) ==> forall h :: h in t.history ==> ItemConsistent(h) by {
        if Inv(s) {
          forall h | h in t.history ensures ItemConsistent(h) {
            var k :| 0 <= k < |t.history| && t.history[k] == h;
            if k > 0 {
              assert h == t.history[1..][k - 1];
              assert h in s.history;
            }
          }
        }
      }
      assert Inv(s) ==> forall n :: n in t.notifications ==> NoticeConsistent(n) by {
        if Inv(s) {
          forall n | n in t.notifications ensures NoticeConsistent(n) {
            var k :| 0 <= k < |t.notifications| && t.notifications[k] == n;
            if k > 0 {
              assert n == t.notifications[1..][k - 1];
            }
          }
        }
      }
      t
  }

  /** Closing a notification: its close button, its auto-hide timer, a
      click-away or Escape. */
  function Dismiss(s: State, id: string): (t: State)
    ensures t.notifications == RemoveId(s.notifications, id)
    ensures t == s.(notifications := t.notifications)
    ensures Inv(s) ==> Inv(t)
  {
    s.(notifications := RemoveId(s.notifications, id))
  }

  /** The cooldown timer firing: the play button is enabled again. */
  function CooldownExpired(s: State): (t: State)
    ensures !t.isCoolingDown
    ensures t == s.(isCoolingDown := false)
    ensures Inv(s) ==> Inv(t)
  {
    s.(isCoolingDown := false)
  }

  function SelectMode(s: State, mode: GuessMode): (t: State)
    ensures t.mode == mode && t == s.(mode := mode)
    ensures Inv(s) ==> Inv(t)
  {
    s.(mode := mode)
  }

  /** The slider only ever reports a value within MinValue..MaxValue. */
  function SelectThreshold(s: State, threshold: int): (t: State)
    requires InRange(threshold)
    ensures t.threshold == threshold && t == s.(threshold := threshold)
    ensures Inv(s) ==> Inv(t)
  {
    s.(threshold := threshold)
  }

  /** Two presses inside the cooldown window: the first is accepted, the
      second changes nothing; once the timer fires a press is accepted again. */
  lemma CooldownGate(s: State, d1: Draw, d2: Draw, d3: Draw)
    requires !s.isCoolingDown
    requires InRange(d1.value) && InRange(d2.value) && InRange(d3.value)
    ensures Play(s, d1).currentResult == d1.value
    ensures Play(Play(s, d1), d2) == Play(s, d1)
    ensures Play(CooldownExpired(Play(s, d1)), d3).currentResult == d3.value
  {
  }

  /** Expiry leaves nothing behind: a play after it acts exactly as a play
      from the same screen that was never cooling down, the very first play
      included. */
  lemma PlayAfterExpiry(s: State, d: Draw)
    requires InRange(d.value)
    ensures Play(CooldownExpired(s), d) == Play(s.(isCoolingDown := false), d)
    ensures CooldownExpired(Initial()) == Initial()
  {
  }

  /** The notification pushed by a play goes away when dismissed by its id,
      and only it: the list is back to what it was before the play. */
  lemma DismissUndoesPush(s: State, d: Draw)
    requires InRange(d.value) && !s.isCoolingDown
    requires !HasId(s.notifications, d.notificationId)
    ensures Dismiss(Play(s, d), d.notificationId).notifications == s.notifications
  {
    RemovePushed(Play(s, d).notifications[0], s.notifications);
  }

  /** The events the screen reacts to. */
  datatype Event =
    | Press(draw: Draw)
    | Close(id: string)
    | Expire
    | ChooseMode(mode: GuessMode)
    | Slide(threshold: int)

  /** Events whose inputs the rest of the page guarantees to be in range. */
  predicate WellFormed(e: Event) {
    match e
    case Press(d) => InRange(d.value)
    case Slide(t) => InRange(t)
    case _ => true
  }

  function Step(s: State, e: Event): (t: State)
    requires WellFormed(e)
    ensures Inv(s) ==> Inv(t)
  {
    match e
    case Press(d) => Play(s, d)
    case Close(id) => Dismiss(s, id)
    case Expire => CooldownExpired(s)
    case ChooseMode(m) => SelectMode(s, m)
    case Slide(t) => SelectThreshold(s, t)
  }

  function Run(s: State, es: seq<Event>): State
    requires forall e :: e in es ==> WellFormed(e)
    decreases |es|
  {
    if es == [] then s else Run(Step(s, es[0]), es[1..])
  }

  /** Whatever events arrive, in whatever order, the history never holds more
      than ten rows, the threshold and the displayed number stay in range,
      and every row and notification agrees with the win rule. */
  lemma {:induction false} RunKeepsInv(s: State, es: seq<Event>)
    requires Inv(s)
    requires forall e :: e in es ==> WellFormed(e)
    ensures Inv(Run(s, es))
    decreases |es|
  {
    if es != [] {
      assert es[0] in es;
      assert forall e :: e in es[1..] ==> e in es;
      RunKeepsInv(Step(s, es[0]), es[1..]);
    }
  }

  lemma ReachableStatesKeepInv(es: seq<Event>)
    requires forall e :: e in es ==> WellFormed(e)
    ensures Inv(Run(Initial(), es))
    ensures |Run(Initial(), es).history| <= HistoryLimit
  {
    RunKeepsInv(Initial(), es);
  }

  /** A series of rounds, each a press followed by the cooldown firing. */
  function PlayRounds(s: State, ds: seq<Draw>): State
    requires forall d :: d in ds ==> InRange(d.value)
    decreases |ds|
  {
    if ds == [] then s
    else PlayRounds(CooldownExpired(Play(s, ds[0])), ds[1..])
  }

  /** The history rows those rounds record under a fixed mode and threshold,
      most recent first. */
  function RowsOf(mode: GuessMode, threshold: int, ds: seq<Draw>): (rows: seq<HistoryItem>)
    ensures |rows| == |ds|
    ensures forall k :: 0 <= k < |ds| ==>
      rows[k] == HistoryItem(ds[|ds| - 1 - k].historyId, ds[|ds| - 1 - k].time, mode, threshold,
                             ds[|ds| - 1 - k].value, Wins(mode, threshold, ds[|ds| - 1 - k].value))
    decreases |ds|
  {
    if ds == [] then []
    else
      var d := ds[0];
      RowsOf(mode, threshold, ds[1..]) + [HistoryItem(d.historyId, d.time, mode, threshold, d.value, Wins(mode, threshold, d.value))]
  }

  /** After any number of rounds the history is the newest rows in front of
      the older history, cut to ten; mode, threshold and the cooldown flag are
      as before. */
  lemma {:induction false} HistoryAfterRounds(s: State, ds: seq<Draw>)
    requires !s.isCoolingDown && |s.history| <= HistoryLimit
    requires forall d :: d in ds ==> InRange(d.value)
    ensures PlayRounds(s, ds).history == Take(RowsOf(s.mode, s.threshold, ds) + s.history, HistoryLimit)
    ensures PlayRounds(s, ds).mode == s.mode && PlayRounds(s, ds).threshold == s.threshold
    ensures !PlayRounds(s, ds).isCoolingDown
    decreases |ds|
  {
    if ds == [] {
      assert RowsOf(s.mode, s.threshold, ds) + s.history == s.history;
    } else {
      var d := ds[0];
      var s1 := CooldownExpired(Play(s, d));
      assert forall x :: x in ds[1..] ==> x in ds;
      HistoryAfterRounds(s1, ds[1..]);
      var row := HistoryItem(d.historyId, d.time, s.mode, s.threshold, d.value, Wins(s.mode, s.threshold, d.value));
      var newer := RowsOf(s.mode, s.threshold, ds[1..]);
      assert s1.history == Take([row] + s.history, HistoryLimit);
      TakeAppendTake(newer, [row] + s.history, HistoryLimit);
      assert newer + ([row] + s.history) == RowsOf(s.mode, s.threshold, ds) + s.history;
    }
  }

  /** After ten or more rounds the history holds exactly the last ten rows,
      the most recent first. */
  lemma LastTenRounds(s: State, ds: seq<Draw>)
    requires !s.isCoolingDown && |s.history| <= HistoryLimit
    requires forall d :: d in ds ==> InRange(d.value)
    requires |ds| >= HistoryLimit
    ensures |PlayRounds(s, ds).history| == HistoryLimit
    ensures forall k :: 0 <= k < HistoryLimit ==>
      PlayRounds(s, ds).history[k].id == ds[|ds| - 1 - k].historyId &&
      PlayRounds(s, ds).history[k].result == ds[|ds| - 1 - k].value
  {
    HistoryAfterRounds(s, ds);
    var rows := RowsOf(s.mode, s.threshold, ds);
    assert forall k :: 0 <= k < HistoryLimit ==> (rows + s.history)[k] == rows[k];
  }

  /** The history rows the accepted presses of an event sequence record,
      most recent first, each with the mode and threshold current when it
      was pressed; presses during a cooldown record nothing. */
  function AcceptedRows(s: State, es: seq<Event>): seq<HistoryItem>
    requires forall e :: e in es ==> WellFormed(e)
    decreases |es|
  {
    if es == [] then []
    else
      var rest := AcceptedRows(Step(s, es[0]), es[1..]);
      match es[0]
      case Press(d) =>
        if s.isCoolingDown then rest
        else rest + [HistoryItem(d.historyId, d.time, s.mode, s.threshold, d.value, Wins(s.mode, s.threshold, d.value))]
      case _ => rest
  }

  /** Whatever events arrive (closes, mode and threshold changes, rejected
      presses, expiries, in any order), the history is the accepted presses'
      rows, newest first, in front of the old history, cut to ten; once ten
      presses were accepted it is exactly the last ten of them. */
  lemma {:induction false} HistoryAfterRun(s: State, es: seq<Event>)
    requires |s.history| <= HistoryLimit
    requires forall e :: e in es ==> WellFormed(e)
    ensures Run(s, es).history == Take(AcceptedRows(s, es) + s.history, HistoryLimit)
    ensures |AcceptedRows(s, es)| >= HistoryLimit ==>
      Run(s, es).history == AcceptedRows(s, es)[..HistoryLimit]
    decreases |es|
  {
    if es == [] {
      assert AcceptedRows(s, es) + s.history == s.history;
    } else {
      var e := es[0];
      assert e in es;
      assert forall x :: x in es[1..] ==> x in es;
      var s1 := Step(s, e);
      assert |s1.history| <= HistoryLimit;
      HistoryAfterRun(s1, es[1..]);
      var rest := AcceptedRows(s1, es[1..]);
      if e.Press? && !s.isCoolingDown {
        var d := e.draw;
        var row := HistoryItem(d.historyId, d.time, s.mode, s.threshold, d.value, Wins(s.mode, s.threshold, d.value));
        assert s1.history == Take([row] + s.history, HistoryLimit);
        TakeAppendTake(rest, [row] + s.history, HistoryLimit);
        assert rest + ([row] + s.history) == AcceptedRows(s, es) + s.history;
      } else {
        assert s1.history == s.history;
        assert AcceptedRows(s, es) == rest;
      }
    }
    var rows := AcceptedRows(s, es);
    if |rows| >= HistoryLimit {
      assert (rows + s.history)[..HistoryLimit] == rows[..HistoryLimit];
    }
  }
}
