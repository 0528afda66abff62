# Music-festival timeline: the deterministic core

The timeline is a single browser script (`script.js`) that stores attended
concerts and festivals as event records in an IndexedDB object store. It
draws them as a two-sided timeline with year markers, and it prints four
frequency tables. This project models the script's deterministic logic as
Dafny and proves properties of it:

- **Statistics tally** (`generateStatistics`). One pass over the events fills
  four tables: by year, by city, by month and by venue ("livehouse"). City
  and venue are pieces 0 and 1 of `location.split(' ')`. Month is piece 1 of
  `date.split('-')`. `JsString` models JavaScript's `split` on one character
  and `undefined` past the end of an array (`Option`). `Statistics` models the
  loop as a method. It proves that method equal to a reference tally
  (`Histogram`) and then proves what that tally means: which keys are present,
  what each count is, and what the counts add up to.
- **Year markers** (`displayYears`). `[...new Set(years)]` is `Seqs.Distinct`:
  no repeats, every year present, in first-seen order.
- **Left/right placement** (`displayEvents`). An entry's side depends on the
  parity of its index.
- **Edit patch** (`editEvent` / `updateEvent`). The fetched record gets its
  four text fields from the form and keeps its key and attachments. The
  patched record replaces the old one under the same key.

Modules: `Wrappers` (Option), `Seqs` (first index, distinct elements),
`JsString`, `Events` (the record, the form, the patch), `Timeline` and
`Statistics`.

How the keys are derived:

- City and venue come from splitting `location` on the single character
  `' '`. Other whitespace does not separate. Two spaces in a row right after
  the city give an empty venue.
- Month is the text between the first and second `'-'` of `date`, not a
  fixed position. A date without `'-'` gives the `undefined` bucket. A date
  with one `'-'` gives the text after it.

Nothing in this project reads a clock, a file or the network. The events that
`getAll` returns are the parameter `events`. The form's text inputs are the
parameter `Form`.

## Model

| member | source | states |
|---|---|---|
| `Seqs.Distinct` | script.js:99 | the result has no duplicates, holds only elements of the input, holds every element of the input, and is no longer than the input |
| `Seqs.DistinctFirstSeenOrder` | script.js:99 | distinct elements appear in the order of their first occurrence in the input |
| `Seqs.DistinctOfDistinct` | script.js:99 | a sequence without repeats is unchanged by `[...new Set()]` |
| `Timeline.DistinctYears` | script.js:99 | the year markers have no duplicates, include every event's year, contain only years of events, and are never more than the events |
| `Timeline.DistinctYearsOrder` | script.js:99 | year markers come in the order in which the years first occur among the events |
| `Timeline.DistinctYearsExample` | script.js:99 | years 2019, 2020, 2019 give the markers 2019, 2020 |
| `Timeline.Layout` | script.js:58-61 | one side per event; the entry at index `i` is on the left if and only if `i` is even |
| `Timeline.LayoutAlternates` | script.js:61 | the layout equals an independently defined sequence that starts on the left and switches side at every step |
| `JsString.Split` | script.js:188 | `split` on one character returns one more piece than there are separators in the string (so never an empty array) |
| `JsString.At` | script.js:188 | indexing a piece is defined exactly below the array's length and gives that piece; otherwise it is `undefined` |
| `JsString.Before` | script.js:188 | the text before the first separator contains no separator, is a prefix of the string, and is followed by a separator if there is one; it is the whole string when there is no separator |
| `JsString.After` | script.js:204 | the string is the text before its first separator, that separator, then the rest |
| `JsString.SplitNoSeparator` | script.js:188 | a string without the separator splits into itself alone |
| `JsString.SplitAtSeparator` | script.js:188 | a separator-free prefix followed by the separator becomes the first piece, and the rest is split on its own |
| `JsString.SplitFirst` | script.js:188 | `split` peels off the text before the first separator and continues after it |
| `JsString.SplitPiecesFree` | script.js:188 | no piece contains the separator |
| `JsString.JoinSplit` | script.js:188 | joining the pieces with the separator gives back the original string |
| `JsString.SplitJoin` | script.js:188 | splitting the join of separator-free pieces gives back the pieces |
| `JsString.SplitPieceZero` | script.js:188 | piece 0 always exists and is the text before the first separator, or the whole string |
| `JsString.SplitPieceOne` | script.js:196 | piece 1 is `undefined` exactly when there is no separator, and otherwise the text between the first and second separators |
| `Statistics.Increment` | script.js:181-185 | the truthiness-guarded update adds one to the count so far (a missing key counts as 0), adds the key, and leaves every other key's count alone |
| `Statistics.Histogram` | script.js:179-210 | the reference tally: a key is present exactly when it occurs, with its number of occurrences, which is at least 1 |
| `Statistics.HistogramSnoc` | script.js:179-210 | tallying one more key is one `Increment` of the tally so far |
| `Statistics.TallyStep` | script.js:179-210 | adding one event to the events tallied so far is one `Increment` of each table under that event's key |
| `Statistics.GenerateStatistics` | script.js:179-210 | the single `forEach` loop leaves each of the four tables equal to the reference tally of its keys (year, city, month, venue) |
| `Statistics.HistogramTotal` | script.js:179-210 | the counts, summed once over each key present, add up to the number of keys tallied |
| `Statistics.MultisetCountsPositions` | script.js:179-210 | the number of occurrences of a key equals the number of positions that hold it |
| `Statistics.TallyCount` | script.js:179-210 | in every table, the count for a key is the number of events whose derived key it is (0 when the key is absent) |
| `Statistics.TallyKeys` | script.js:179-210 | a table holds a key exactly when some event's derived key is that key |
| `Statistics.TallyTotal` | script.js:179-210 | every key of a table is listed exactly once by `Distinct`, and the counts over that list add up to the number of events |
| `Statistics.TotalIncrement` | script.js:181-185 | one `Increment` raises a sum over distinct keys by one if the key is among them, and leaves it unchanged otherwise |
| `Statistics.TallyOfOne` | script.js:179-210 | a single event is tallied once, under its own key |
| `Statistics.CityKey` | script.js:188 | the city is the text of `location` before the first space, or the whole location; it is never `undefined` |
| `Statistics.LivehouseKey` | script.js:204 | the venue is `undefined` exactly when `location` has no space, and otherwise the text between the first and second spaces |
| `Statistics.MonthKey` | script.js:196 | the month is `undefined` exactly when `date` has no `-`, and otherwise the text between the first and second `-` |
| `Statistics.TwoWordLocation` | script.js:188-204 | a location of two space-free words has the first word as city and the second as venue |
| `Statistics.ThreePartDate` | script.js:196 | a date of three `-`-free parts has the middle part as month |
| `Statistics.BeijingLocationExample` | script.js:188-208 | "Beijing Livehouse" is tallied as Beijing: 1 by city and Livehouse: 1 by venue |
| `Statistics.JulyDateExample` | script.js:196-200 | "2021-07-15" is tallied as 07: 1 by month |
| `Events.Prefill` | script.js:125-128 | the edit form is filled with the record's year, date, location and remarks |
| `Events.ApplyEdit` | script.js:150-154 | after the patch, year, date, location and remarks are the submitted values; `id`, `bandPhoto`, `livePhoto` and `video` are unchanged |
| `Events.UpdateEvent` | script.js:145-156 | fails exactly when no record has the `id`; otherwise the store keeps its keys, the record under `id` is the patched one, and every other record is unchanged |
| `Events.PrefillAfterEdit` | script.js:125-154 | reading an edited record back into the form shows exactly the submitted values |
| `Events.EditWithPrefillIsIdentity` | script.js:125-154 | submitting the prefilled form unchanged leaves the record as it was |
| `Events.EditLastWins` | script.js:150-154 | a second edit completely overrides the first |
| `Events.UpdateKeepsKeys` | script.js:145-156 | when every record sits under its own `id`, it still does after an update |

## Left out

- Opening IndexedDB, the upgrade handler, object-store and index creation, transactions, `add`, `getAll`, `get`, `delete` and the completion callbacks (script.js:3-17, 40-46, 50-55, 108-121, 145-149, 158-161, 167-172). These belong to the host storage library. Only the replace-by-key effect of `put` is modelled, in `Events.UpdateEvent`.
- The DOM work: reading the inputs, `innerHTML` templates, `createElement`/`appendChild`, the `draggable` attribute, the year-marker elements and the statistics output (script.js:21-28, 56-92, 98-105, 125-128, 140-143, 212-219). These are rendering. `Events.Prefill` models only which fields feed the form.
- Attachments are opaque `File` values. `URL.createObjectURL` and the object URLs that are never released are not modelled (script.js:73-80).
- How submit handlers are wired (script.js:19-47, 131-135, 160). A create listener is added with `addEventListener('submit', …)` and is never removed. `editEvent` assigns `form.onsubmit` and so adds a second handler. An edit submission therefore runs both `objectStore.add` of a new record and `updateEvent(id)`. `reset()` clears the inputs but not `onsubmit`, so every later submission patches the last edited record again. This is event-handler plumbing. The model covers the patch of one `updateEvent` call, not which handlers fire or how often.
- `JSON.stringify` of the tables (script.js:215-218). It only formats output.
- JavaScript object keys: a key is coerced to a string, so the `undefined` bucket is really the key `"undefined"`. A location such as `"X undefined"` would therefore count in the same bucket. Inherited keys such as `"constructor"` are truthy and would produce `NaN`. The tables use `Option<string>` keys, which model the intended tally, and `Statistics.Increment` treats every key as an own key.
- `Events.UpdateEvent`: when no record has the `id`, the script throws inside the `get` callback and writes nothing. The model returns `None`, and the exception is not modelled.
- Strings are Dafny strings, which are sequences of Unicode scalar values. JavaScript strings are sequences of UTF-16 code units. For well-formed strings, splitting on `' '` or `'-'` and comparing keys give the same results in both. A lone surrogate cannot be represented in the model.
- Concurrency between overlapping user actions is not modelled. Each operation is one call on a value.
