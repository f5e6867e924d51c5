# Ticket dashboard reconciliation model

A Dafny model of the reconciliation logic in the ticket dashboard's `App` component
(`src/App.js`). The dashboard keeps three pieces of state:

- the ticket snapshot (`data`);
- the notification list (`notifications`);
- the unread indicator (`hasUnread`).

Callbacks replace that state when a backend request completes:

- the 30-second ticket sync diffs the previous snapshot against the fetched one and raises one notification per ticket whose staged `TEXTBOX` text changed;
- the 15-second notification poll replaces the list;
- mark-as-read, delete, announcement, status change and ticket delete patch the state locally once the backend accepts them.

Around that state are the derived views the page computes on every render:

- the row escalation colour;
- the search/status/type filter;
- the per-status counters;
- the type histogram;
- the top-five department ranking;
- the one-ticket-per-email recipient list.

Layout:

- `wrappers.dfy`: `Option`.
- `seqs.dfy`: `Select`, the model of `Array.prototype.filter`, with its order and membership lemmas; `Distinct`, the model of `[...new Set(xs)]`; `FlatMap`, the pieces a `forEach` pushes, concatenated in order.
- `tickets.dfy`: the `Ticket` record, lookup by id (`find`), and the two local snapshot patches.
- `escalation.dfy`: `getRowColor`.
- `delta.dfy`: the sync diff. A spec function `TextboxEvents` (the `FlatMap` of each ticket's zero or one event) is paired with the `forEach` loop `DetectTextboxUpdates`, which is proved equal to it.
- `notices.dfy`: the notification record, the message templates, and the list updates: map to read and filter by id. The two prepends are written in `dashboard.dfy` (`Sync`, `Announce`), and `AnyUnreadAppend` states how the unread check sees them.
- `filter.dfy`, `histograms.dfy`, `contacts.dfy`: the derived views. The accumulating loops (`getStatusCounts`, the two `reduce`s) are methods proved against spec functions.
- `dashboard.dfy`: the `Dashboard` class. Its fields are `data`, `notifications` and `hasUnread`, and there is one method per callback completion.

Network replies, the clock and generated ids are parameters:

- `Fetched<T>` is `Failed` or `Received(body)`, where the body is `None` when it is not an array.
- `ok` / `delivered` / `confirmed` flags stand for backend success and `window.confirm`.
- `now` and `createdAt` are integer milliseconds.
- `ids` (one per possible event of a sync) stand for `Date.now() + Math.random()`, and an announcement's `id` stands for `Date.now()`.
- `stamps` (one per possible event of a sync) and an announcement's `stamp` stand for `new Date().toISOString()`.
- `lower` stands for `String.prototype.toLowerCase`.

Where the handlers close over the list from the last render (`markAsRead`, `deleteNotification`), that list is the parameter `rendered`. It may differ from the current `notifications`.

## Model

| member | source | states |
|---|---|---|
| Escalation.RowColor | src/App.js:1200-1206 | Status "Completed" gives green whatever the creation time, even when it is absent. Green is given for nothing else. A non-completed ticket with no creation time gets no colour. |
| Escalation.CssIdentifiesTier | src/App.js:1203-1222 | The colour strings `getRowColor` returns are pairwise different and only the no-colour tier returns "", so the returned string determines the tier. |
| Escalation.RowColorBands | src/App.js:1206-1222 | For a dated, non-completed ticket: red iff the age is over 14400 minutes, orange iff it is in (7200, 14400], yellow iff it is in (5760, 7200], no colour otherwise. |
| Escalation.RowColorMonotone | src/App.js:1212-1222 | As the clock advances, a ticket's tier never becomes less urgent. |
| Escalation.RowColorExamples | src/App.js:1200-1222 | A waiting ticket aged 10000 minutes is orange and one aged 20000 minutes is red. A pending ticket aged one minute has no colour. A completed one is green. |
| Tickets.FindById | src/App.js:1250-1252 | `find` by ticket id returns a row with that id from the snapshot, or nothing exactly when no row has it. |
| Tickets.FindByIdFirst | src/App.js:1250-1252 | The row found is the first one carrying the id. |
| Delta.DetectTextboxUpdates | src/App.js:1246-1266 | The `forEach` loop pushes exactly the events of `TextboxEvents(prev, next)`. |
| Delta.TextboxEventsExactly | src/App.js:1248-1266 | An event is emitted for a fetched ticket iff: a previous row with its id exists (first match), its TEXTBOX is non-empty, and the TEXTBOX differs from the old one. The event carries that ticket's id and new text, and every event comes from such a ticket. |
| Delta.TextboxEventsAppend | src/App.js:1248 | Events follow the fetched snapshot's order: the events of `a + b` are those of `a` followed by those of `b`. |
| Seqs.SelectCount | src/App.js:1382 | `filter` keeps every copy of an element that passes and no copy of one that fails. |
| Seqs.DistinctIsSubsequence | src/App.js:1898-1903 | The distinct keys (the dictionary's insertion order) occur in the input in the same order. |
| Seqs.FlatMapAppend | src/App.js:1248 | Pushing in a `forEach` commutes with concatenation: the pieces of `a + b` are those of `a` followed by those of `b`. |
| Delta.QuietTickets | src/App.js:1254-1258 | A new ticket, or one whose TEXTBOX is absent or empty, emits nothing. |
| Delta.NoEventsAgainstItself | src/App.js:1248-1266 | Diffing a snapshot with unique ids against itself emits nothing. |
| Delta.RepeatedIdsCanEmitAgainstItself | src/App.js:1250-1252 | Without unique ids, a snapshot diffed against itself can emit an event, because `find` pairs the second row with the first. |
| Delta.TextboxScenario | src/App.js:1248-1266 | Changing ticket 1's TEXTBOX from "" to "urgent" emits exactly one event for ticket 1 with text "urgent". Changing it back to "" emits none. |
| Notices.FromEventsUnread | src/App.js:1259-1264 | The sync creates one notification per event, all unread. Some notification is unread exactly when some event was detected. |
| Notices.AnyUnreadAppend | src/App.js:1269-1271 | Prepending to the list: something is unread iff something in either part is unread. |
| Notices.MarkReadSpec | src/App.js:1366-1369 | Marking one id read sets `read` on exactly the entries with that id and changes nothing else. The result has something unread iff the old list had an unread entry with another id. |
| Notices.MarkAllReadSpec | src/App.js:1374-1375 | Marking all read keeps the length, changes only the flags, and leaves nothing unread. |
| Notices.MarkReadExample | src/App.js:1366-1369 | Three notifications, two unread including id 1. Marking id 1 leaves exactly the other one unread, so the indicator stays on. |
| Notices.WithoutSpec | src/App.js:1451 | `filter(n => n.id !== id)` removes exactly the entries with that id and keeps the others in order, every copy of each. |
| Notices.WithoutOne | src/App.js:1451 | In a list with unique ids, deleting the id at position j removes that entry alone. |
| Notices.DeleteAllFromRenderedKeepsOthers | src/App.js:2308 | As written, each completion stores the render-time list minus its own id. That result still holds every other entry. |
| Notices.WithoutEachRemovesExactly | src/App.js:1451 | Deleting ids one after another from the current list removes exactly the entries whose id was deleted. |
| Notices.DeleteAllFromCurrentEmpties | src/App.js:2308 | Corrected: deleting every id from the list as it currently stands leaves no entry. |
| Tickets.WithStatusChangesOnlyStatus | src/App.js:1425-1431 | The status patch keeps the length. It changes only the status column, and only for rows carrying the id. |
| Tickets.WithStatusKeepsIds | src/App.js:1425-1431 | The status patch keeps ids unique, and a patched row is then found by its id with its new status. |
| Tickets.WithoutTicketRemovesExactly | src/App.js:1466-1468 | The ticket delete removes exactly the rows carrying the id and keeps the rest in order, every copy of each. No row with that id remains, and unique ids stay unique. |
| Dashboard.Dashboard.constructor | src/App.js:1109-1119 | The state starts with an empty snapshot, an empty list and the indicator off. |
| Dashboard.Dashboard.LoadAll | src/App.js:1176-1187 | First load (and date-filter reset, src/App.js:1343-1357): the snapshot becomes the rows received, or [] on failure or a non-array body. |
| Dashboard.Dashboard.LoadByDate | src/App.js:1326-1340 | No date: nothing happens. Otherwise the received rows, or [] on failure or a non-array body. |
| Dashboard.Dashboard.Sync | src/App.js:1227-1283 | A failed fetch changes nothing. On success: the snapshot is replaced by the rows (or []); one unread notification per detected event is placed ahead of the old list, in order, the k-th with its own id `ids[k]` and clock reading `stamps[k]`; the indicator is set iff there was an event and otherwise unchanged. An accurate indicator stays accurate. |
| Dashboard.Dashboard.PollNotifications | src/App.js:1308-1317 | On success the list becomes exactly the fetched list and the indicator says whether any entry is unread. On failure nothing changes. |
| Dashboard.Dashboard.MarkAsRead | src/App.js:1359-1379 | Only after backend success. With an id: mark that id read and compute the indicator from the render-time list excluding the id. With no id (or the falsy 0): mark all read and turn the indicator off. If the render-time list is the current one, the indicator ends up accurate. |
| Dashboard.Dashboard.DeleteNotification | src/App.js:1448-1455 | After backend success the list becomes the render-time list without the id. The indicator is untouched. |
| Dashboard.Dashboard.DeleteNotificationFromCurrent | src/App.js:1448-1455 | Corrected delete: filters the list as it stands at completion. |
| Dashboard.Dashboard.Announce | src/App.js:1547-1582 | Applies only if the message is not blank after `trim`, the user confirmed, and the backend reported success. Then an unread "new announcement" notification quoting the message is prepended and the indicator is set; otherwise nothing changes. |
| Dashboard.Dashboard.ChangeStatus | src/App.js:1409-1432 | After backend success the snapshot is the status patch of the old one, and unique ids stay unique. |
| Dashboard.Dashboard.DeleteTicket | src/App.js:1457-1475 | After confirmation and backend success the snapshot is the old one without the id's rows, and unique ids stay unique. |
| TicketFilter.FilteredDataSpec | src/App.js:1381-1403 | `filteredData` is a subsequence of the snapshot holding exactly the rows that pass the search, status and type tests, each passing row as many times as the snapshot holds it. With an empty search and both filters at "all" it is the whole snapshot. |
| TicketFilter.NoneTypeOptionMatchesNothing | src/App.js:1398-1406 | As written: a ticket without a Type makes the drop-down offer "None", and choosing "None" shows no rows. |
| TicketFilter.TypeOptionsShowTheirRows | src/App.js:1406 | Corrected (type tested on `Type \|\| "None"`): every offered type shows all rows of that type, so no option gives an empty list. |
| Histograms.CountStatusLast | src/App.js:1766-1770 | Counting one more row adds one to the count of that row's status and leaves every other status's count unchanged. |
| Histograms.StatusCounts | src/App.js:1757-1773 | The counts dictionary has exactly the five statuses as keys, and each value is the number of rows with that status. |
| Histograms.StatusCountsBounded | src/App.js:1766-1770 | The five counts sum to at most the number of rows. |
| Histograms.Tally | src/App.js:1898-1903 | The `reduce` over a dictionary, then `Object.entries`, yields one entry per distinct key in first-seen order, with its number of occurrences. |
| Histograms.TallyAdvance | src/App.js:1899-1902 | One reduce step keeps the accumulator exact: the dictionary holds each key seen so far with its count, and its insertion order is the first-seen order of those keys. |
| Histograms.TallyTotal | src/App.js:1922-1926 | The counts of the histogram add up to the number of rows, so every row is counted exactly once. |
| Histograms.TallySpec | src/App.js:1922-1926 | Each entry's count is its key's number of occurrences. Keys are exactly the keys present, without repeats, and the counts add up to the number of rows. |
| Histograms.InsertKeepsSorted | src/App.js:1929 | Stable insertion by descending count keeps a sorted sequence sorted. |
| Histograms.SortByCount | src/App.js:1929 | The sort is a permutation of the entries, ordered by descending count. |
| Histograms.InsertByCountStable | src/App.js:1929 | The insertion puts the new entry at the front of its tie group and leaves every other tie group as it was. |
| Histograms.SortByCountStable | src/App.js:1929 | The sort is stable: for every count, the entries with that count appear in their input order. |
| Histograms.SortedPrefix | src/App.js:1929-1930 | A prefix of a sorted ranking is sorted and drawn from it. No entry it leaves out counts more than an entry it keeps. |
| Histograms.TopFiveSpec | src/App.js:1927-1930 | The ranking is the first min(5, n) sorted entries, drawn from the histogram. Every entry left out counts no more than any entry shown. |
| Histograms.TopFiveKeepsTieOrder | src/App.js:1929-1930 | For every count, the shown entries with that count are the first ones with that count in the histogram's order. So a tie at the cut-off goes to the entries that were added to the dictionary first. |
| Histograms.TopOfTallyCounts | src/App.js:1922-1930 | Every entry of the top five of a histogram is a key present in the input, with its number of occurrences. |
| Histograms.TopOfTallyLeavesLess | src/App.js:1922-1930 | A key present in the input but not shown in the top five occurs no more often than any shown key. |
| Histograms.DepartmentRankingSpec | src/App.js:1922-1930 | The department card shows min(5, number of departments) departments, keyed by `แผนก \|\| "ไม่ระบุ"`. Each comes with its number of tickets, and no department left off the card has more tickets than one shown. |
| Contacts.InformationContacts | src/App.js:2233-2242 | The filter to "Information" rows followed by the reduce yields `FirstPerEmail` of those rows. |
| Contacts.FirstPerEmailDistinct | src/App.js:2235-2238 | The kept rows have pairwise different emails. |
| Contacts.FirstPerEmailCovers | src/App.js:2235-2238 | Every Information row's email appears among the kept rows. |
| Contacts.FirstPerEmailSubsequence | src/App.js:2234-2242 | The kept rows occur in the input, in the same order. |
| Contacts.FirstPerEmailKeepsFirst | src/App.js:2235-2240 | A row whose email no earlier row has is kept. |

## Findings

| source | as written | input that shows it | evidently intended | confidence | as-written member | corrected member |
|---|---|---|---|---|---|---|
| src/App.js:1451, 2308 | "Delete all" calls `deleteNotification` once per entry. Each call stores `notifications.filter(...)` of the list captured at render, so the last completion overwrites the others. | `rendered` = two notifications with ids 1 and 2; both deletes succeed. The local list ends as one of them, not empty, until the next poll. | Each completion filters the current list (`setNotifications(prev => prev.filter(...))`), so deleting all leaves nothing. | medium, not executed | Notices.DeleteAllFromRenderedKeepsOthers | Notices.DeleteAllFromCurrentEmpties |
| src/App.js:1398, 1406 | The type options are `Type \|\| "None"`, but the filter compares the raw `Type` column. | One ticket without a Type: the options are ["None"]; choosing "None" gives an empty list. | Compare the same key the option list shows. | medium, not executed | TicketFilter.NoneTypeOptionMatchesNothing | TicketFilter.TypeOptionsShowTheirRows |

`Dashboard.Dashboard.DeleteNotification` keeps the as-written single delete. `Dashboard.Dashboard.DeleteNotificationFromCurrent` is the corrected form used by the corrected delete-all. `TicketFilter.FilteredData` keeps the as-written filter; `TicketFilter.FilteredDataByTypeKey` is the corrected one.

## Left out

- Rendering, styled components, sidebar, scrolling, the draggable panel and CSV/JSON export: view code with no state logic.
- HTTP calls: each becomes a caller-supplied outcome. The fire-and-forget `/clear-textboxes` post inside the sync changes no local state and is not modelled. Neither are `/api/email-rankings`, the chat-message endpoints and the `/update-textbox` branch of `handleChatSubmit`, which touch no modelled state.
- Timers and interleaving: each method is one callback completion. The scheduling of the 30 s and 15 s intervals, overlapping syncs and cancellation on unmount are not modelled.
- The audio alert, `alert`, `console` logging, and the `lastSync`, `chatMessage`, `isDateFilterActive` and filter-input state: they do not feed back into the modelled state.
- Date parsing: `createdAt` is integer milliseconds, `None` when absent or unparsable. Both cases give no colour, as in the source. Comparing milliseconds against the minute thresholds times 60000 is the same test as the source's fractional minutes.
- Ticket ids are strings. A numeric id, and `===` between a number and a string, are not modelled.
- A ticket row missing its id, and a notification-poll body that is not an array, are not modelled. For the latter, the source stores the body and then fails in `some`.
- `toLowerCase` is the uninterpreted parameter `lower`.
- The JavaScript sort is modelled as a stable insertion sort by descending count. Engines have sorted stably since ES2019.
- `Object.entries` is modelled as insertion order. The engine lists integer-like keys first, and keys such as `constructor` that clash with the object prototype break `acc[key] \|\| 0`; neither is modelled.
- The appointment list's date sort and locale formatting.
- Dashboard.Dashboard.Sync: the caller supplies one id and one clock reading per received row (`|ids| >= |rows|`, `|stamps| >= |rows|`). The k-th new notification takes `ids[k]` and `stamps[k]`. Distinctness of the clock-plus-random ids and increasing clock readings are not modelled.
- Missing versus null columns: a column the backend leaves out and one it sends as `null` are both `None`. Only the recipient list's email dedup (src/App.js:2236, `===`, where `undefined === null` is false) tells them apart. Two "Information" rows, one without an email key and one with a null email, are both kept by the source and merged into one by the model.
