# Dice game round logic, modelled in Dafny

This project models the round logic of the number-guessing game's single screen, the `Home` component. The player picks a guess mode, "under" or "over", and a threshold between 1 and 100, then presses PLAY. The game draws a number in 1..100 and decides win or loss. It shows the number, pushes a notification with the outcome to the front of the notification list, and prepends a row to a history that keeps at most ten rows. A press during the 500 ms cooldown after a play is ignored. Notifications go away one at a time, by id, whenever the Snackbar asks to close them. That happens when the user presses a notification's close button, when its auto-hide timer fires, when the user clicks anywhere outside it (the PLAY button included) and when the user presses Escape. The close handler ignores the Snackbar's reason, so a click-away or an Escape closes every open notification.

Modules, one per component of the round logic:

- `Round` (`round.dfy`) is the evaluator. It holds the guess mode, the win rule, the two loss texts and a count of the winning draws.
- `Ledger` (`ledger.dfy`) is the history. It holds the history row, `slice(0, n)` as `Take`, and prepend-then-cut as `Record`.
- `Notices` (`notices.dfy`) is the notification list. It holds the notification item, push to the front, and the filter by id as `RemoveId`, with lemmas about order, idempotence and commutation.
- `Game` (`game.dfy`) is the screen's six pieces of state as one value. Each event is a function on it: play, dismiss, cooldown expiry and the two setters. It also proves the invariant of every reachable state and what the history holds after a series of rounds.
- `HomePage` (`home.dfy`) is the component itself: a class `Home` whose fields are the six pieces of state. Its methods update them in place, and each method is proved against the matching `Game` transition. Two client methods, `QuickPresses` and `LossTexts`, prove from those contracts alone what a quick double press and the two losing texts do.

Inputs that the source takes from the host become parameters. A `Draw` carries the drawn value (required to be in 1..100), the two ids and the formatted time string. The timers become events: `CooldownExpired` for the cooldown timer, and `RemoveNotification(id)` for each close request of a notification's Snackbar.

Behaviours of the code worth noting:

- Dismissing an id removes every notification with that id, not just one (`filter` at `src/app/page.tsx:69`).
- The play action returns nothing in the code. The model's `Home.Play` returns only whether the press was accepted.
- The ids are not guaranteed to be unique by the code. So no operation requires fresh ids. Only the lemmas that need freshness assume it (`RemovePushed`, `DismissUndoesPush`).

## Model

| member | source | states |
|---|---|---|
| Round.Evaluate | src/app/page.tsx:92-98 | win holds exactly when value < threshold in mode Under and value > threshold in mode Over, so value == threshold always loses; detail is empty exactly on a win, "Number was higher" on a loss in Under, "Number was lower" on a loss in Over |
| Round.DetailIsTruthful | src/app/page.tsx:94-98 | the loss text never contradicts the draw: "higher" only when value >= threshold, "lower" only when value <= threshold |
| Round.ModesAreComplementary | src/app/page.tsx:92 | for a value different from the threshold, exactly one of the two modes wins |
| Round.WinningDraws | src/app/page.tsx:43-45 | of the 100 possible draws, threshold - 1 win in Under, 100 - threshold win in Over, and exactly one draw loses in both modes |
| Ledger.Take | src/app/page.tsx:113 | slice(0, n): the result is the prefix of length min(length, n) |
| Ledger.Record | src/app/page.tsx:113 | the new history has length min(old length + 1, 10), its head is the new row and its tail is a prefix of the old history |
| Ledger.TakeAppendTake | src/app/page.tsx:113 | cutting to ten before prepending rows gives the same result as cutting once afterwards |
| Notices.Push | src/app/page.tsx:102 | the new notification becomes element 0 and the earlier ones follow in their order; the length grows by one, with no cap |
| Notices.RemoveId | src/app/page.tsx:69 | a notification is in the result exactly when it was in the list and its id differs from the removed one; the list never grows |
| Notices.RemoveIdKeepsOrder | src/app/page.tsx:69 | the result is a subsequence of the list, with no copy of the removed id and every copy of every other notification |
| Notices.RemoveIdAppend | src/app/page.tsx:69 | removal distributes over concatenation |
| Notices.RemoveAbsent | src/app/page.tsx:68-70 | removing an id that no notification carries changes nothing |
| Notices.RemoveIdIdempotent | src/app/page.tsx:68-70 | removing the same id twice equals removing it once (close button and auto-hide both firing) |
| Notices.RemoveIdCommutes | src/app/page.tsx:68-70 | two removals give the same list in either order |
| Notices.RemovePushed | src/app/page.tsx:102 | removing a freshly pushed notification by its id gives back the list it was pushed onto |
| Game.Initial | src/app/page.tsx:57-66 | the first state is mode Under, threshold 20, shown number 100, empty history and notification lists, not cooling down, and it satisfies the screen invariant |
| Game.Play | src/app/page.tsx:80-114 | while cooling down, nothing changes; otherwise the cooldown is armed, the shown number is the drawn value, mode and threshold stay, the new history row records mode, threshold, value and the win rule's verdict, the history is cut to ten and its tail is a prefix of the old one, the new notification carries the same win and the loss text, the earlier notifications follow unchanged, and the invariant is kept |
| Game.Dismiss | src/app/page.tsx:68-70 | only the notification list changes, by removing the id; the invariant is kept |
| Game.CooldownExpired | src/app/page.tsx:87-89 | only the cooldown flag changes, to false |
| Game.SelectMode | src/app/page.tsx:151 | only the mode changes |
| Game.SelectThreshold | src/app/page.tsx:164-167 | only the threshold changes, to a value in 1..100; the invariant is kept |
| Game.CooldownGate | src/app/page.tsx:80-89 | a press is accepted, a second press inside the window changes nothing, and after expiry a press is accepted again |
| Game.PlayAfterExpiry | src/app/page.tsx:81-89 | a play after expiry acts exactly as a play from the same screen that never cooled down; the first screen is unaffected by expiry |
| Game.DismissUndoesPush | src/app/page.tsx:101-102 | dismissing the notification that a play pushed (fresh id) restores the list from before the play |
| Game.RunKeepsInv | src/app/page.tsx:57-167 | across any sequence of events: threshold and shown number in 1..100, at most ten history rows, every row agrees with the win rule, every notification's text matches its verdict |
| Game.ReachableStatesKeepInv | src/app/page.tsx:57-66 | every state reachable from the first render satisfies that invariant, so the history never exceeds ten rows |
| Game.HistoryAfterRounds | src/app/page.tsx:113 | after any number of rounds, the history is their rows, newest first, in front of the old history, cut to ten |
| Game.LastTenRounds | src/app/page.tsx:104-113 | after ten or more rounds, the history holds exactly the last ten rounds, most recent first |
| Game.HistoryAfterRun | src/app/page.tsx:80-114 | across any sequence of events, with closes, mode and threshold changes and rejected presses in between, the history is the rows of the accepted presses (each with the mode and threshold current at its press), newest first, in front of the old history, cut to ten; after ten accepted presses it is exactly the last ten |
| HomePage.Home.constructor | src/app/page.tsx:57-66 | the fields start as the first-render state |
| HomePage.Home.Play | src/app/page.tsx:80-114 | accepted exactly when not cooling down; the fields become Game.Play of the old state; the invariant is kept |
| HomePage.Home.RemoveNotification | src/app/page.tsx:68-70 | the fields become Game.Dismiss of the old state |
| HomePage.Home.CooldownExpired | src/app/page.tsx:87-89 | the fields become Game.CooldownExpired of the old state |
| HomePage.Home.SetMode | src/app/page.tsx:151 | the fields become Game.SelectMode of the old state |
| HomePage.Home.SetThreshold | src/app/page.tsx:164-167 | the fields become Game.SelectThreshold of the old state, with the slider's 1..100 bound as a precondition |

## Left out

- Rendering and styling (`src/app/page.tsx:116-277`) and the theme in `src/app/theme.ts`: presentation only, with no logic.
- `Math.random` in `rand1to100`: it is floating point and nondeterministic. The drawn value is a parameter with the precondition 1 <= value <= 100.
- Id generation from `Date.now()` and `Math.random().toString(16)`: it reads the clock and converts floats to text. The ids are parameters instead.
- `formatTime` and its locale call: a foreign library call. The time is an uninterpreted string parameter.
- The real timers and the Snackbar's close requests: `setTimeout`/`clearTimeout`, the unmount cleanup in `useEffect`, and the Snackbar's close on its 2500 ms auto-hide, on a click-away and on Escape. They are asynchronous host machinery. Their effects are the events `CooldownExpired` and `RemoveNotification`, which may arrive at any time and in any order. A click-away or an Escape is one `RemoveNotification` per open notification.
- The timer handle `cooldownTimeoutRef`: it is used only to cancel a pending timer. A play is accepted only when the previous cooldown timer has already fired, so this cancellation never cancels a live timer.
- React's batching and closure semantics of `useState`: the state is plain fields updated in sequence.
- Game.CooldownExpired: modelled as an event that may also arrive when no cooldown is pending. The source fires it only after a play, and setting the flag to false is harmless in either case.
