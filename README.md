# Due-Dates-Board dashboard script, modelled in Dafny

The dashboard is one browser script (`script.js`). It works over a page of
course cards, each holding task items. It does four things:

- **Completion store.** It keeps each task's completion in `localStorage`, as
  the text `"true"` or `"false"` under the task's id. It restores that state
  on load and records it when a checkbox changes.
- **Filter engine.** Filter buttons carry a course filter and/or a status
  filter (`pending`, `completed`). Clicking one hides the cards and tasks that
  do not pass, counts the visible tasks and shows an empty-state box when
  there are none.
- **Countdown engine.** Every second, the next-event panel shows the
  non-completed task with the smallest positive time left, and that time
  split into days, hours, minutes and seconds.
- **Open-tasks banner.** Every minute, a banner lists the tasks that are
  open. A task with a start date (a `D/M` text on the task) is open between
  that start and its due date. A task without one is open when it is due
  within 0..5 days, with the days rounded up.

The model replaces the page by explicit state.

- `Markup` holds the static records: tasks, cards and filter buttons, in
  document order.
- `Dashboard.Board` is a class. Its arrays hold the marker classes
  (`completed`, `hidden` on tasks and cards, `active` on buttons). Its
  fields hold `localStorage` as a `map<string, string>`, the empty-state
  flag, and the texts of the next-event panel and the banner.
- Each event handler and timer callback is a method of `Board`. A timer tick
  is a call that is given the current instant `now`, in integer
  milliseconds.
- The pure parts are functions with lemmas, one module per component:
  `CompletionStore`, `FilterEngine`, `CountdownEngine`, `OpenTasksBanner`.
  The read-only scans (`SelectNextTask`, `CollectOpenTasks`) are methods
  with loops, proved against those functions.

Dates are abstract.

- A task's `data-date` is an `Option<int>` instant. `None` stands for an
  invalid date: JavaScript compares every `NaN` as false, so such a task is
  never selected and never open. The `Infinity` start value of the
  minimum scan is replaced by `None` too.
- `new Date(2026, month, day)` is a parameter `localDate(year, month, day)`
  of the banner operations. It stands for the local-time calendar, which is
  not part of this model.

Behaviour of the code worth noting:

- A filter click clears `active` on every filter button, not only on the
  buttons of the same axis (course or status).
- Without a start date, a task counts as open until one whole day after its
  due instant. Rounding up means a task overdue by less than a day still has
  0 days left. The horizon is 5 days, although the comments at
  `script.js:199` and `script.js:210` speak of 3 and 7 days.
- Under a status filter, the course filter has no effect on the result: the
  status phase unhides every card and decides every task afresh.

## Model

| member | source | states |
|---|---|---|
| CompletionStore.Load | script.js:16 | a task loads as completed iff its entry exists and is exactly `"true"`; characterised by LoadAfterSave, AbsentLoadsPending and LoadInvertsStoredText |
| CompletionStore.Save | script.js:22 | the store with the task's entry set to `String(checked)`; characterised by LoadAfterSave and SaveKeepsOtherIds |
| CompletionStore.LoadAfterSave | script.js:16-22 | after the change handler stores `checked` under an id, loading that id gives back exactly `checked` |
| CompletionStore.SaveKeepsOtherIds | script.js:22 | storing one id leaves the entry and the loaded state of every other id unchanged |
| CompletionStore.AbsentLoadsPending | script.js:16 | an id with no entry loads as not completed |
| CompletionStore.LoadInvertsStoredText | script.js:16-22 | on an entry of `"true"` or `"false"`, the loaded flag is stored back as the same text |
| Dashboard.Board.constructor | script.js:3-9 | the page before the script runs: the given tasks, cards, buttons and storage; no task, card or button carries `completed`, `hidden` or `active`, while the empty-state box and the banner carry `hidden` |
| Dashboard.Board.ToggleTaskCompletion | script.js:28-34 | the task's `completed` marker becomes the given flag and no other task's changes |
| Dashboard.Board.LoadSavedStates | script.js:13-18 | after loading, every task's `completed` marker is true iff its stored entry is exactly `"true"` |
| Dashboard.Board.OnCheckboxChange | script.js:20-25 | storage gets the new state under the task's id, only that task's marker changes, loading the id gives back the state, and the next-event panel is recomputed |
| FilterEngine.ApplyFilter | script.js:52-110 | the outcome of filterTasks on given flags: the course phase when the course filter is truthy, then the status phase or the per-card count; characterised by CourseOnlyFilter, StatusFilter, NoFilter and ShowAll |
| FilterEngine.CourseOnlyFilter | script.js:56-66 | course filter, no status filter: matching cards (every card for `'all'`) and all their tasks end unhidden; other cards end hidden and their tasks keep their flag; the count is the number of tasks in unhidden cards; the empty state is shown iff no task lies in a matching card |
| FilterEngine.StatusFilter | script.js:69-94 | status filter, any course filter: `'pending'` shows exactly the non-completed tasks, `'completed'` exactly the completed ones, any other value none; the count is the number of unhidden tasks; a card ends hidden iff it has no unhidden task; the empty state is shown iff every task is hidden |
| FilterEngine.NoFilter | script.js:95-109 | neither filter: all flags are kept; the count is the number of tasks in unhidden cards, hidden tasks included; the empty state is shown iff every task's card is hidden |
| FilterEngine.ShowAll | script.js:56-66 | `'all'` without a status filter unhides every card and task; the count is the number of tasks; the empty state is shown iff the page has no task |
| FilterEngine.SumOverShownCardsCounts | script.js:96-101 | adding up the tasks of each unhidden card gives the number of tasks that lie in an unhidden card |
| FilterEngine.CountShownInCardZero | script.js:89-93 | a card has zero unhidden tasks iff each of its tasks is hidden |
| FilterEngine.CountShownZero | script.js:105-109 | the count of shown tasks is zero iff every task is hidden |
| FilterEngine.CountInShownCardsZero | script.js:96-109 | no task lies in an unhidden card iff every task's card is hidden |
| Dashboard.Board.ShowTasksIn | script.js:61 | every task of the card ends unhidden; every other task keeps its flag |
| Dashboard.Board.ApplyCourseFilter | script.js:56-66 | the course phase's loops leave the card and task flags ApplyFilter's course phase describes |
| Dashboard.Board.ApplyStatusFilter | script.js:69-94 | the status phase's loops: each task is hidden iff it fails the status test, each card iff it has no unhidden task, and the count is the number of unhidden tasks |
| Dashboard.Board.HideCardsWithoutShownTasks | script.js:89-93 | starting from all cards unhidden, each card ends hidden iff it has no unhidden task |
| Dashboard.Board.CountTasksInShownCards | script.js:95-102 | the per-card loop's sum equals the number of tasks in unhidden cards |
| Dashboard.Board.FilterTasks | script.js:52-110 | the new task and card flags, the count and the empty state are those of ApplyFilter on the old flags, which the FilterEngine lemmas characterise |
| Dashboard.Board.OnFilterClick | script.js:38-49 | afterwards exactly the clicked button is `active`, and the filter has run with that button's own course and status values |
| CountdownEngine.SelectNextTask | script.js:123-141 | there is no choice iff no non-completed task has a valid due date strictly after `now`; otherwise the chosen task is upcoming, no upcoming task has less time left, every upcoming task before it has strictly more (the first minimum wins), and `minDiff` is its time left |
| CountdownEngine.NextIsUnique | script.js:135-138 | at most one task meets the next-event condition |
| CountdownEngine.Decompose | script.js:147-150 | hours are in 0..23, minutes and seconds in 0..59, and the parts add up to the time left minus less than one second |
| CountdownEngine.DecomposeInverts | script.js:147-150 | a duration with parts in range, plus less than a second, splits back into the same parts |
| CountdownEngine.EventLabel | script.js:142-144 | the panel label: the heading of the task's card, `": "`, and the task's name |
| Dashboard.Board.UpdateNextEvent | script.js:123-159 | the panel shows the next event's card heading and name with its split time left, or the no-upcoming label and the zeroed countdown when no task is upcoming |
| OpenTasksBanner.TrimStartCuts | script.js:186 | the first half of trim keeps a suffix that does not start with a trimmable character and cuts off only trimmable characters |
| OpenTasksBanner.TrimEndCuts | script.js:186 | the second half of trim keeps a prefix that does not end with a trimmable character and cuts off only trimmable characters |
| OpenTasksBanner.TrimCuts | script.js:186 | trim keeps a contiguous slice that neither starts nor ends with a trimmable character, and everything cut off before and after it is trimmable |
| OpenTasksBanner.MatchPrefix | script.js:189 | the regular expression anchored at one position: two day digits tried before one, then `/`, then one or two month digits taken greedily; characterised on written input (digits, `/`, digits, then a non-digit) by MatchWritten |
| OpenTasksBanner.FindDayMonth | script.js:189 | the unanchored search of the regular expression; characterised by FindIsFirstMatch, FindIgnoresTrim and StartTextRoundTrip |
| OpenTasksBanner.StartDay | script.js:183-195 | the parsed day and zero-based month of a task with a start-date text whose trimmed form holds a match, and none otherwise; characterised through StartWindow |
| OpenTasksBanner.FindIsFirstMatch | script.js:189 | the `D/M` search fails iff no position starts a match, and otherwise returns the match at the first position where one starts |
| OpenTasksBanner.FindIgnoresTrim | script.js:186-189 | trimming the start-date text never changes what the search finds |
| OpenTasksBanner.StartTextRoundTrip | script.js:189-192 | a day and a month written with one or two digits, after digit-free text and before text that does not continue the month, read back as that day and the month minus one |
| OpenTasksBanner.StartWindow | script.js:183-207 | a task whose start-date text holds a written day and month (after digit-free text, before text that does not continue the month) starts on that day, month minus one, and is open iff it is not completed, its due date is valid and `new Date(2026, month - 1, day) ≤ now ≤ due` |
| OpenTasksBanner.IsOpen | script.js:203-216 | the open rule: not completed, a valid due date, and either the start window or the rounded-up 0..5 day horizon; characterised by StartWindow and HorizonWindow |
| OpenTasksBanner.CeilDays | script.js:211-212 | the result is the rounded-up number of days: `(r-1)·day < diff ≤ r·day` |
| OpenTasksBanner.HorizonWindow | script.js:208-216 | without a start date, a task is open iff it is not completed, its due date is valid and `-1 day < due - now ≤ 5 days` |
| OpenTasksBanner.OpenIndices | script.js:176-222 | the collected indices all lie below the number of tasks scanned |
| OpenTasksBanner.OpenIndicesExact | script.js:176-222 | the collected indices are strictly increasing (scan order) and contain a task iff it is open |
| OpenTasksBanner.OpenLabelsMeaning | script.js:218-225 | entry k of the list is the course-code label of the k-th open task; every open task has an entry; the list is empty iff no task is open |
| OpenTasksBanner.BannerLabel | script.js:219-221 | a banner entry: the card's `data-course` (`"undefined"` when it has none), `": "`, and the task's name |
| OpenTasksBanner.CollectOpenTasks | script.js:174-223 | the scan pushes exactly the labels of the open tasks, in scan order |
| OpenTasksBanner.Join | script.js:229 | `Array.prototype.join`: the entries in order with the separator between each two, the empty text for no entry |
| Dashboard.Board.UpdateActiveTasksBanner | script.js:170-238 | the banner is hidden iff no task is open; otherwise it shows the open labels joined with `'   ✦   '` |
| Dashboard.Board.Init | script.js:166-168 | the start-up sequence: the load loop of `script.js:13-18` runs first, so every task's marker matches its stored entry; then the next-event panel and the banner show what the two updates compute for one instant `now` |

## Left out

- Timers and start-up events: `setInterval` and `DOMContentLoaded` are not modelled. A tick is a call of `UpdateNextEvent` or `UpdateActiveTasksBanner` with the current instant. `Init` is the load-time sequence. It gives both updates the same instant `now`, while the script reads `new Date()` separately in each (`script.js:124`, `script.js:173`).
- DOM queries: `querySelectorAll`, `closest` and `classList` are not modelled. Marker classes are boolean arrays, and the card of a task is an index. The model assumes every task lies in a card and has a name, and every card has a heading. The script throws when a task breaking this is the next event or is open (`script.js:142-143`, `script.js:219-220`). A task outside every card would still be hidden, shown and counted by the status phase, which the model cannot express.
- Checkboxes: the load loop runs over the `.task-check input` elements (`script.js:6`, `script.js:14`), not over the task items. The model assumes exactly one checkbox per task item, in task order, so `LoadSavedStates` and `OnCheckboxChange(t)` address the task by its index.
- `checkbox.checked` is not a separate field. The load loop and the change handler always set it together with the `completed` marker.
- The initial marker classes of the markup are not an input. The constructor starts with every marker cleared and the empty state and banner hidden.
- `updateDateTime`: it renders the `ar-SA` locale date and time, which is presentational and depends on the locale library.
- Date semantics: parsing `data-date`, and `new Date(2026, month, day)` with its time zone and overflow normalisation, are not modelled. Due instants are given, and the start instant comes from the `localDate` parameter.
- Floating point: the divisions of the countdown and of the day rounding are exact integer divisions in the model; rounding of JavaScript's double quotients is not modelled.
- Countdown text: the unit suffixes and the colours are not modelled. The countdown holds the four integers, or `Zeroed` for the fixed text `"00:00:00:00"`.
- Banner markup: `innerHTML` is not modelled. The first assignment is overwritten by the second one anyway. `bannerText` is the joined text the `<span>` wraps; interpreting that text as HTML is not modelled.
- `innerText` normalisation of the start-date, name and heading texts is not modelled. They are taken as given strings.
- Trim: `IsTrimmable` writes out JavaScript's white-space and line-terminator characters by code point; later changes to Unicode's space category are not tracked.
