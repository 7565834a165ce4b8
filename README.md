# FlowBoard state, modelled in Dafny

FlowBoard is a single-page Kanban board (`src/js/app.js`) with a small
event-countdown page beside it (`src/js/script.js`). This project models
the state both scripts keep and the handlers that change it:

- the board: four fixed columns (Backlog, To Do, In Progress, Done), each an
  ordered list of cards with `id`, `title`, `desc` and `assignee`, plus the
  `editing` location of the card dialog and the one localStorage slot;
- the handlers that change it in place: `load`, `save`,
  `removeCardFromState`, the column's `drop` listener, `deleteCard`, the
  Edit, Add Card, Cancel and Save buttons, and `hideModal`, together with
  the two lookups they call, `findCardLocation` and `getCardFromElement`,
  which only read the board;
- the pure helpers: `escapeHtml`, `getDragAfterElement` and the search
  filter, with the JavaScript string built-ins they use (`trim`,
  `toLowerCase`, `includes`, `replaceAll`);
- the countdown: the `events` list, `addEvent`, and one tick of
  `updateCountdowns` with its day/hour/minute/second split and its one-shot
  reminder flag.

Modules, one per file: `Wrappers` (Option), `JsString`, `Html`, `Board`
(the board as values, the specification functions of the handlers and the
lemmas about them), `App` (class `FlowBoard`, the page state, with one
method per handler; the lookups, the removal, the drop, the delete and the
Save button are each proved equal to their specification function in
`Board` or `App`, and `save`, the splice step of the drop, the Add Card
button and `hideModal` state their new fields directly),
`View` and `Countdown` (class `Tracker`).

Things the model makes explicit:

- The drop listener removes the card from the state before it looks the card
  up. When card ids are unique (as `uid()` makes them), the lookup therefore
  always falls back to rebuilding the card from the element's `<h4>` and
  `<p>` text with an empty assignee (`Board.DropRenderedCard`), and dragging
  a card clears its assignee. With a duplicated id the lookup finds the other
  copy instead (`Board.CardForSpec`).
- `splice` with a negative start counts back from the end of the column, so
  an `index` of -1 inserts before the last card (`Board.SpliceStart`).
- `findCardLocation` is declared twice, with the same body; the later
  declaration (lines 204-210) is the one every call reaches.
- The search filter matches against the whole text of a card, including the
  labels of its Edit and Delete buttons: the query "edit" shows every card
  (`View.EditQueryShowsEveryCard`).
- `addEvent` refuses only empty inputs. A name made of spaces is accepted,
  because the value is not trimmed.
- An unparsable date gives `NaN`; every comparison with it is false, so such
  an event is always labelled "Event Started!" and never reminds.
- In edit mode, a location that no longer points at a card makes line 183
  throw before anything changes (`SaveOutcome.StaleLocation`).

## Model

| member | source | states |
|---|---|---|
| JsString.Trim | src/js/app.js:181 | `trim()` never lengthens its input, and what it returns neither starts nor ends with ECMAScript white space or a line terminator |
| JsString.TrimStartSpec | src/js/app.js:181 | the first half of `trim()` leaves a suffix of the input, preceded by white space only and not starting with white space |
| JsString.TrimEndSpec | src/js/app.js:181 | the second half of `trim()` leaves a prefix, followed by white space only and not ending with white space |
| JsString.TrimEmptyIff | src/js/app.js:181 | `trim()` yields the empty string exactly when the input is all ECMAScript white space and line terminators |
| JsString.TrimIsSlice | src/js/app.js:181 | what `trim()` keeps is one contiguous slice of the input, with only white space before and after it and no white space at either of its ends |
| JsString.ToLower | src/js/app.js:195-197 | `toLowerCase()` keeps the length and lowers each character on its own (ASCII letters) |
| JsString.Contains | src/js/app.js:198 | `includes` can hold only when the searched string is at least as long as the query |
| JsString.ContainsToLower | src/js/app.js:197-198 | lower-casing both strings keeps an `includes` match a match |
| JsString.ContainsEmpty | src/js/app.js:198 | every string `includes` the empty string |
| JsString.ContainsTrans | src/js/app.js:198 | `includes` is transitive: a substring of a substring is a substring |
| Html.ReplaceAll | src/js/app.js:202 | a `replaceAll` pass with a non-empty replacement never shortens the string, and one with a one-character replacement keeps its length; a string without the pattern comes back unchanged (`Html.ReplaceAllAbsent`) |
| Html.ThreePassesEscapeEach | src/js/app.js:202 | the chain of three `replaceAll` passes equals escaping each character on its own, because `&` is replaced first |
| Html.EscapeHtml | src/js/app.js:202 | `escapeHtml` turns `&` into `&amp;`, `<` into `&lt;` and `>` into `&gt;` and keeps every other character, each character on its own |
| Html.EscapeHtmlNoAngles | src/js/app.js:202 | the output of `escapeHtml` contains no `<` and no `>` |
| Html.EscapeHtmlPlainText | src/js/app.js:202 | on a string without `&`, `<` and `>`, `escapeHtml` returns it unchanged |
| Html.UnescapeEscapeHtml | src/js/app.js:202 | decoding `&amp;`, `&lt;` and `&gt;` in the escaped string gives back the input, so a card's `<h4>` and `<p>` text is its title and description |
| Board.Rank | src/js/app.js:2 | every column has one position in `COLUMNS`, and `COLUMNS` holds it there |
| Board.FindIndex | src/js/app.js:121 | `findIndex` answers -1 or a position inside the column, and a position it answers holds a card with the id; that it is the first such position is `Board.FindIndexSpec` |
| Board.FindIndexSpec | src/js/app.js:121 | `findIndex` returns -1 exactly when no card has the id, and otherwise the first position that holds it |
| Board.LocateFrom | src/js/app.js:204-210 | the scan from the i-th column on answers null or a position, in column i or a later one, whose card has the id; that it is the first such position is `Board.LocateFromSpec` |
| Board.Locate | src/js/app.js:204-210 | `findCardLocation` answers null or a `{col, idx}` inside the board whose card has the id; that it is the first such position is `Board.LocateSpec` |
| Board.LocateFromSpec | src/js/app.js:204-210 | the column scan from any column on returns the first column from there that holds the id, at the first position in it, and null exactly when none does |
| Board.LocateNoneIff | src/js/app.js:204-210 | `findCardLocation` returns null exactly when the id is in no column |
| Board.LocateSpec | src/js/app.js:204-210 | a found `{col, idx}` holds the id, no earlier position of that column does, and no column earlier in `COLUMNS` holds it; null exactly when no column holds it |
| Board.UniqueLocate | src/js/app.js:204-210 | with unique ids, looking up the id of the card at any position finds that very position |
| Board.Rendered | src/js/app.js:83-84 | the element built for a card carries the card's id, and its `<h4>` and `<p>` text, as line 115 reads it back, is exactly the card's title and description, because the markup escapes them |
| Board.Fallback | src/js/app.js:115 | the card made up from the element carries the element's id and an empty assignee |
| Board.CardFor | src/js/app.js:106-116 | `getCardFromElement` always returns a card with the element's id; where the card comes from is `Board.CardForSpec` |
| Board.CardForSpec | src/js/app.js:106-116 | `getCardFromElement` returns a card with the element's id; a card of the board when the id is on it, and otherwise the fallback built from the `<h4>` and `<p>` text with an empty assignee |
| Board.RemoveAt | src/js/app.js:122 | `splice(idx, 1)` makes the column one card shorter, keeps the cards before `idx` in place and moves each card after it down by one |
| Board.RemoveFirst | src/js/app.js:118-125 | removal keeps all four columns, and a board on which no column holds the id is left as it was; what is cut out otherwise is `Board.RemoveFirstShape` |
| Board.RemoveFirstShape | src/js/app.js:118-125 | removal cuts exactly the first card with the id out of the first column holding it, and leaves every other column as it was |
| Board.RemoveFirstIds | src/js/app.js:118-125 | removal takes exactly one copy of the id off the board when it is there, and leaves the board unchanged when it is not |
| Board.RemoveFirstUnique | src/js/app.js:118-125 | with unique ids, removal keeps them unique and leaves no card with the id |
| Board.SpliceStart | src/js/app.js:65 | the insert position of `splice` is within the column, and equals the start when the start is within it |
| Board.Insert | src/js/app.js:65 | `splice(index, 0, card)` makes the column one card longer, with the card at the insert position; that the other cards keep their order is `Board.InsertThenRemoveAt` |
| Board.InsertIds | src/js/app.js:65 | `splice(index, 0, card)` adds exactly the card's id to the board's ids |
| Board.InsertThenRemoveAt | src/js/app.js:65 | the spliced card sits at the insert position, and cutting it out again gives back the column |
| Board.DropCommit | src/js/app.js:59-65 | a drop keeps all four columns; the target column ends one card longer than after the removal, with a card carrying the dragged id at the insert position |
| Board.DropCommitPlaces | src/js/app.js:59-65 | with unique ids, the drop inserts the fallback card at the insert position of the target column, and no other column holds the id |
| Board.DropCommitIds | src/js/app.js:59-65 | a drop keeps ids unique; the multiset of ids is unchanged when the card was on the board, and gains that one id otherwise |
| Board.DropRenderedCard | src/js/app.js:59-65 | dropping a card rendered from the board puts it at the insert position of the target column with its id, title and description but an empty assignee; it is in no other column and the multiset of ids is unchanged |
| Board.DropChangesOnlyTwoSlots | src/js/app.js:59-65 | a drop changes only the column the card left (one position removed) and the target column (one position inserted); every other column is unchanged |
| Board.ReplaceKeepsIds | src/js/app.js:185 | replacing a card by one with the same id leaves the board's ids unchanged |
| Board.AppendFreshKeepsUnique | src/js/app.js:187 | pushing a card with an id not on the board onto Backlog adds that id once and keeps ids unique |
| App.CardOf | src/js/app.js:183 | the card Save builds has the given id, and each field is the trimmed input: no longer than what was typed and with no white space at either end |
| App.SaveEffect | src/js/app.js:180-188 | Save keeps all four columns; an outcome other than a save leaves the board as it was, and the stale-location throw can happen only in edit mode |
| App.SaveRejectsBlankTitle | src/js/app.js:181-182 | Save refuses exactly the titles that are empty after trimming, and a refused save leaves the board unchanged |
| App.SaveEditReplacesOneSlot | src/js/app.js:183-185 | in edit mode Save replaces only the card at the remembered location, keeping its id and storing the trimmed fields; every other position and column is unchanged |
| App.SaveCreateAppendsToBacklog | src/js/app.js:183-188 | in create mode Save appends one card with the new id and trimmed fields to the end of Backlog and leaves the other columns unchanged |
| App.SaveKeepsUniqueIds | src/js/app.js:183-188 | a save keeps card ids unique when the new id is not on the board |
| App.WelcomeCard | src/js/app.js:29 | the sample card has the fresh id and a non-empty title with no white space at either end |
| App.FlowBoard.Load | src/js/app.js:22-32 | with a stored snapshot the board is that snapshot; otherwise every column is empty except Backlog, which holds only the welcome card, ids are unique, and the new board is saved |
| App.FlowBoard.Save | src/js/app.js:34 | the slot holds the current board |
| App.FlowBoard.FindCardLocation | src/js/app.js:204-210 | the loop over `COLUMNS` returns what the column scan specifies |
| App.FlowBoard.RemoveCardFromState | src/js/app.js:118-125 | the loop removes what the first-match removal specifies, and returns true exactly when the id was on the board |
| App.FlowBoard.GetCardFromElement | src/js/app.js:106-116 | the loop returns the first card with the element's id, or the fallback card |
| App.FlowBoard.SpliceInto | src/js/app.js:65 | the target column gets the card inserted at the `splice` position; the other columns are unchanged |
| App.FlowBoard.Drop | src/js/app.js:53-67 | with no dragged element nothing changes; otherwise the board becomes the drop commit (remove, then look up, then splice) and is saved; the editing location is kept |
| App.FlowBoard.DeleteCard | src/js/app.js:155-159 | the first card with the id is removed and the board saved; deleting an id that is on no column leaves the board unchanged |
| App.FlowBoard.OpenEdit | src/js/app.js:138-145 | the editing location becomes `findCardLocation` of the card's id and the dialog shows the card's fields |
| App.FlowBoard.OpenCreate | src/js/app.js:173-177 | the dialog will create a card: no editing location |
| App.FlowBoard.HideModal | src/js/app.js:166-171 | the editing location is cleared |
| App.FlowBoard.SaveCard | src/js/app.js:180-192 | the outcome and the board are those Save specifies; a successful save also stores the board and clears the editing location, a refused one changes nothing |
| View.Offset | src/js/app.js:131 | a sibling's offset is negative exactly when its midpoint is greater than `y` |
| View.ReduceFrom | src/js/app.js:127-136 | once the `reduce` holds an element, it is a sibling of the prefix that is not being dragged and whose midpoint is below `y`, stored with its own offset |
| View.DragAfter | src/js/app.js:127-136 | a position `getDragAfterElement` returns is a sibling that is not being dragged and whose midpoint is greater than `y` |
| View.ReduceFromSpec | src/js/app.js:127-136 | after any prefix of the siblings, the `reduce` holds nothing exactly when no non-dragged sibling has a negative offset, and otherwise the one with the largest negative offset, the first on ties |
| View.DragAfterSpec | src/js/app.js:127-136 | `getDragAfterElement` returns the non-dragged sibling with the smallest midpoint greater than `y`, the first on ties, and null exactly when there is none |
| View.Visible | src/js/app.js:194-198 | a card the filter shows has text at least as long as the trimmed query |
| View.BlankQueryShowsAll | src/js/app.js:194-200 | an empty or all-white-space query shows every card |
| View.MatchingPartShowsCard | src/js/app.js:194-200 | a query matching any part of a card's text, whatever the letter case, shows the card |
| View.EditQueryShowsEveryCard | src/js/app.js:194-200 | every card's text contains its Edit button's label, so the query "edit" shows every card |
| Countdown.Decompose | src/js/script.js:51-54 | for a positive distance, hours are below 24, minutes and seconds below 60, and the parts add back to the distance less its last milliseconds |
| Countdown.LabelOf | src/js/script.js:47-67 | the label is "Event Started!" exactly when the date is NaN or not after now, and otherwise counts down |
| Countdown.Tick | src/js/script.js:59-64 | a tick keeps the name and the date, and afterwards the event is reminded exactly when it already was or is in its last minute |
| Countdown.Reminders | src/js/script.js:46-64 | one tick raises no more alerts than there are events; which events they are is `Countdown.RemindersSpec` |
| Countdown.LabelStartedIff | src/js/script.js:50-67 | the label is "Event Started!" exactly when the date is NaN or not after now, such a tick never reminds, and a reminder comes with no whole minutes left |
| Countdown.TickKeepsEvent | src/js/script.js:59-64 | a tick changes only `reminded`, only from false to true, exactly for an event in its last minute; a second tick at the same time does nothing |
| Countdown.RemindersSpec | src/js/script.js:59-64 | the alerts of one tick are the positions, in increasing order, of exactly the events in their last minute that were not yet reminded |
| Countdown.RemindsAtMostOnce | src/js/script.js:59-64 | over any sequence of ticks an event raises at most one reminder: one exactly when it was not yet reminded and some tick fell in its last minute |
| Countdown.Tracker.constructor | src/js/script.js:1 | the page starts with no events |
| Countdown.Tracker.AddEvent | src/js/script.js:3-19 | an event is added exactly when both inputs are non-empty; it goes at the end, not yet reminded, and earlier events are unchanged |
| Countdown.Tracker.UpdateCountdowns | src/js/script.js:43-70 | every event gets its label and its tick, the length of the list is kept, and the alerts are the reminders of that tick in list order |

## Left out

- DOM rendering (`render`, `createCardElement`, `displayEvents`), templates, `innerHTML`, event-listener wiring, modal visibility, focus and titles: UI plumbing with no state of its own.
- The `dragover` listener's reordering of the list (src/js/app.js:46-52) and the computation of the drop `index` from the list's children (src/js/app.js:63-64): DOM geometry; the index is a parameter of the drop.
- `localStorage` and `JSON.stringify`/`JSON.parse`: the slot is an opaque snapshot of the board; `App.FlowBoard.Load` takes a snapshot with all four columns, as `save()` writes, and a corrupt slot is not modelled.
- `uid()` and `Math.random`: the new id is a parameter; uniqueness of ids is proved only when that id is not on the board (`App.SaveKeepsUniqueIds`).
- App.FlowBoard.SaveCard: its contract does not state that ids stay unique; `App.SaveKeepsUniqueIds` states it of the specification function, because the class invariant covers only the presence of the four columns.
- `getBoundingClientRect`: each sibling is reduced to an integer midpoint, and the `-Infinity` start of the `reduce` is an empty accumulator. (`closest.offset || -Infinity` would also treat an offset of 0 as empty, but only negative offsets are ever stored.)
- `innerText`: the search filter takes a card's text as a parameter; its layout is not modelled.
- `toLowerCase` outside ASCII and Unicode case mapping: only A-Z are lowered.
- The browser's HTML parsing of a card's markup: only the decoding of `&amp;`, `&lt;` and `&gt;`, the entities `escapeHtml` produces, is modelled.
- `alert`, `confirm`, `sound.play()` and `setInterval`: I/O and scheduling; a reminder is an entry in the alerts of a tick, and `deleteCard` is modelled after a confirmed dialog.
- `new Date()` and `new Date(dateInput).getTime()`: the clock reading and the parsed date are parameters, with NaN as `InvalidDate`.
- The text of the countdown label and of the reminder message: the label is the four numbers, not their decimal rendering.
