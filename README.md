# FAQ accordion: a verified model of its interaction state machine

The FAQ accordion renders a list of question/answer items and lets the user
open one answer at a time. A click on a question's trigger opens its panel.
The Up and Down arrow keys move a keyboard cursor around the list and
highlight ("mark") the item under it. Enter opens the item under the cursor.
Every click and every keydown first resets all visuals and then opens at most
one panel.

The model has four modules:

- `FaqList` (faq_list.dfy): the list that `init` renders. Each question
  becomes a token carrying its key, with a divider between consecutive items.
  `BuildList` is the loop that builds it. Lemmas give the list's exact shape.
- `FaqState` (faq_state.dfy): the state machine as values. A `State` holds the
  three indices of the source's `state` object (`arrowIndex`, `clickIndex`,
  `expandedIndex`) and one `ItemVisual` per item: marked, expanded, and the
  plus or minus icon. Each handler of the source is a function here.
- `FaqProperties` (faq_properties.dfy): what the handlers promise, proved
  about those functions. This covers the cursor's start and wrap-around, the
  purely visual and idempotent reset, at most one open panel after any event,
  the "fake toggle", and arrow-key marking.
- `FaqAccordion` (faq_accordion.dfy): class `Accordion` runs the handlers in
  place. It has the three index fields and the arrays `marked`, `expanded`
  and `icons`. Each method is proved to produce `Snapshot() ==` the matching
  `FaqState` function applied to the old snapshot. The event handlers also
  ensure that the visuals are coherent with `expandedIndex`.

Points where the model follows the code:

- `expandedIndex` is tagged `ByClick` or `ByArrow`. A click passes the item
  id's numeric suffix as a string, while the keyboard passes the number
  `arrowIndex`. The toggle compares them with `===`, so an index recorded by
  one channel never equals an index from the other.
- The reset does not clear `expandedIndex`. Activating the recorded index
  again therefore leaves every panel closed. This holds even after the panel
  was closed by some other event, such as a click outside the triggers or an
  arrow key (`StaleClickStaysClosed`, `ThreeItemWalk`).
- Enter with no cursor reaches the toggle with `undefined`. If
  `expandedIndex` is also unset, the toggle returns at once. Otherwise it
  looks up a panel that does not exist and throws a TypeError, after the reset
  has already run. `ArrowNavigation` reports this as `threw`, and
  `EnterThrows` defines it.
- The list is never empty (`n > 0`). With no items, the arrow keys would index
  buttons that do not exist.

Three consequences of the code that a reader might not expect:

- The reset does not clear `expandedIndex`, and neither does a cursor move.
  Only the visuals are reset (script.js:209-233, 116-157).
- Activating the open index a second time does not keep it open. Every
  handler resets first, and the toggle then returns at once, so the panel is
  left closed (script.js:174-179).
- Enter with no cursor is not always a silent no-op. It throws when an index
  is recorded (script.js:162-187).

## Model

| member | source | states |
|---|---|---|
| FaqState.Initial | script.js:266-287 | right after rendering, every item is unmarked, collapsed and shows plus; and, as the `state` object starts at script.js:5-14, `arrowIndex`, `clickIndex` and `expandedIndex` are all unset |
| FaqState.ResetAccordion | script.js:209-233 | every button is unmarked, every panel collapsed, every icon plus; `arrowIndex`, `clickIndex` and `expandedIndex` are unchanged |
| FaqState.MoveCursor | script.js:116-157 | the new cursor always lies in [0, n) |
| FaqState.MarkElement | script.js:201-204 | the button under the cursor is marked and its panel and icon are unchanged; no other item and no index changes |
| FaqState.TogglePanel | script.js:174-195 | a no-op when the index equals `expandedIndex`; otherwise only that panel opens with the minus icon, `expandedIndex` records it, and no other item changes |
| FaqState.ClickNavigation | script.js:76-93 | the result is well formed; a click on a trigger records its item as `clickIndex`, and a click outside keeps it; the cursor is untouched |
| FaqState.ArrowNavigation | script.js:102-166 | the result is well formed; `clickIndex` is untouched; keys other than Up and Down leave the cursor alone |
| FaqState.EnterThrows | script.js:162-187 | the TypeError case: Enter with no cursor while `expandedIndex` is set, so the toggle looks up the panel of index `undefined` |
| FaqState.Step | script.js:19-25 | every event takes a well-formed state to a well-formed state with the same number of items |
| FaqProperties.FirstPress | script.js:116-134 | with no cursor, Down starts at 0 and Up starts at n-1 |
| FaqProperties.MoveCursorIsModular | script.js:136-157 | from cursor i, Down gives (i+1) mod n and Up gives (i-1) mod n |
| FaqProperties.UpUndoesDown | script.js:136-157 | Up after Down, and Down after Up, return the cursor to where it was |
| FaqProperties.PressesWrap | script.js:136-157 | k presses of Down move the cursor to (c+k) mod n, and k presses of Up to (c-k) mod n |
| FaqProperties.FullCircle | script.js:136-157 | n presses of the same arrow key bring the cursor back to its start |
| FaqProperties.ResetIdempotent | script.js:222-232 | resetting twice gives the same state as resetting once |
| FaqProperties.ResetCoherent | script.js:209-233 | after the reset no panel is open, no button is marked, and the visuals are coherent with any recorded index |
| FaqProperties.ToggleKeepsCoherent | script.js:182-194 | toggling a reset, coherent state keeps the visuals coherent |
| FaqProperties.StepCoherent | script.js:76-166 | from any well-formed state, after any click or keydown, a panel is open only if `expandedIndex` names it, an icon shows minus exactly when its panel is open, and at most one panel is open |
| FaqProperties.ClickOpens | script.js:81-92 | a click on trigger t opens panel t and no other exactly when `expandedIndex` is not the click index t; afterwards `expandedIndex` is the click index t and no button is marked |
| FaqProperties.EnterOpens | script.js:162-165 | Enter on cursor a opens panel a and no other exactly when `expandedIndex` is not the keyboard index a; afterwards `expandedIndex` is the keyboard index a, the cursor stays, and no button is marked |
| FaqProperties.FakeToggleClick | script.js:174-179 | clicking the trigger a click recorded in `expandedIndex` closes every panel and keeps the recorded index |
| FaqProperties.FakeToggleEnter | script.js:162-179 | Enter on the cursor the keyboard recorded in `expandedIndex` closes every panel and keeps the recorded index |
| FaqProperties.StaleClickStaysClosed | script.js:209-233 | after a click opens item t and a click lands outside the triggers, a second click on t opens nothing |
| FaqProperties.ChannelsNeverMatch | script.js:86-91 | Enter on the item that a click just opened opens it again, because a click index never equals a keyboard index |
| FaqProperties.ArrowMarksOne | script.js:109-158 | after Up or Down, exactly the button under the new cursor is marked, no panel is open, and `clickIndex` and `expandedIndex` are unchanged |
| FaqProperties.OnlyResets | script.js:76-166 | a click outside every trigger, or any key other than Up, Down or Enter, only resets the visuals |
| FaqProperties.EnterWithoutCursor | script.js:162-187 | Enter with no cursor changes nothing beyond the reset, whether the toggle returns quietly or throws |
| FaqProperties.ThreeItemWalk | script.js:102-195 | with three items, the keys Down, Down, Enter open item 1; Up moves the cursor to 0 and closes it; then Down and Enter open nothing |
| FaqList.QuestionComponent | script.js:266-288 | renders an item token carrying the given key |
| FaqList.BuildList | script.js:39-54 | the loop builds 2n-1 tokens, or none when n = 0; item k sits at position 2k and a divider at every odd position; the items carry the keys 0..n-1 in order; there are max(n-1, 0) dividers |
| FaqList.LayoutShape | script.js:42-54 | the tokens rendered from record i onwards have length 2(n-i)-1 and sit at the positions `TokenAt` gives |
| FaqList.LayoutCounts | script.js:42-54 | the tokens rendered from record i onwards carry the keys i..n-1 in order and hold n-i-1 dividers |
| FaqList.ListPositions | script.js:42-54 | the rendered list has 2n-1 tokens, or none when n = 0, with item k at position 2k and a divider at every odd position |
| FaqList.ListShape | script.js:42-54 | the list has the keys 0..n-1 in order and max(n-1, 0) dividers, and its last token is never a divider |
| FaqAccordion.Accordion.constructor | script.js:5-14 | the accordion starts with no index set and every item unmarked, collapsed and showing plus |
| FaqAccordion.Accordion.ResetAccordion | script.js:209-233 | the loop leaves the arrays as `FaqState.ResetAccordion` of the old snapshot |
| FaqAccordion.Accordion.MarkElement | script.js:201-204 | marks in place, as `FaqState.MarkElement` |
| FaqAccordion.Accordion.TogglePanel | script.js:174-195 | toggles in place, as `FaqState.TogglePanel` |
| FaqAccordion.Accordion.ClickNavigation | script.js:76-93 | handles a click in place, as `FaqState.ClickNavigation`, and leaves the visuals coherent with at most one panel open |
| FaqAccordion.Accordion.ArrowNavigation | script.js:102-166 | handles a keydown in place, as `FaqState.ArrowNavigation`; reports exactly the TypeError case; leaves the visuals coherent with at most one panel open |

## Left out

- Loading the questions (`getData`, `fetch`, the response check, `state.errorMessage`) and the `async` start-up of `init`. These are network I/O. The model starts from the loaded records, or from their count.
- DOM plumbing. This covers listener registration, `preventDefault`, the `closest()` lookups, `querySelectorAll`, the `innerHTML` assignment and `getElementById`. A click arrives already resolved to the index of the trigger it landed in, or to none.
- The markup text of `QuestionComponent` and `Divider`, and the icon asset paths. An item is a token carrying its question, answer and key, and an icon is `Plus` or `Minus`.
- The initial panel class `faq-collapsed` differs from the `answer-collapsed` that the reset and the toggle use. This is a styling detail. A panel is modelled only as expanded or not.
- An empty list, and events that arrive before the list is loaded. The keydown listener sits on `document` from the start (script.js:25), while the button list is only filled by `init`. An Up before that sets `arrowIndex` to the length of an empty object minus one, which is NaN (script.js:7, 121). From then on every Up, Down and Enter throws, so the cursor stays stuck. A Down before load sets `arrowIndex` to 0 and throws when marking. The model requires at least one loaded item and does not capture this stuck cursor.
- The browser's default activation of a focused button by Enter, which would fire a click as well. Each event is modelled on its own.
