# Transactions store — a verified model

This project models the in-memory transactions store of a personal-finance
dashboard (`src/stores/transactions.js`). It covers these parts:

- the static table of fourteen spending categories;
- the store created by `useTransactionsStore`, which holds one append-only
  list of transaction records;
- `addTransaction`, which resolves a category id to its name, multiplies the
  amount by the fixed scale factor 20, and appends the record. It refuses
  unknown ids and then leaves the list unchanged;
- `getAllTransactions`, which returns a copy of the list;
- `getRecentTransactions(limit = 5)`, which sorts a copy newest date first,
  keeps the first `limit` records and maps each to a display record. The
  display record has a default description and merchant, the amount divided
  by 20 and the date reformatted;
- `formatDateForDisplay`, which turns `YYYY-MM-DD` into `MM-DD-YYYY` by
  splitting on `-`.

Layout, one module per file:

- `options.dfy` (`Options`): an optional value.
- `strings.dfy` (`Strings`): JavaScript `split` and `join` on one separator
  character, and their round trip.
- `dates.dfy` (`Dates`): well-formed dates, their calendar key, and
  `formatDateForDisplay` over any string.
- `categories.dfy` (`CategoryTable`): the table and `categories.find` by id.
- `records.dfy` (`Records`): the input, stored and display records, and the
  two conversions between them.
- `recent.dfy` (`Recent`): the newest-first sort, the `slice` end, the
  display map and the recent view, with their lemmas.
- `store.dfy` (`Store`): the store as a class whose `transactions` field
  `AddTransaction` reassigns, plus the documented usage example replayed
  against the model.

Modelling choices:

- Amounts are exact `real`s, already parsed, so the ×20 and ÷20 steps are
  exact.
- Dates are kept as the strings the caller gave. The recent view compares
  them by calendar key (year·10000 + month·100 + day). For valid dates this
  orders them as the timestamps `new Date(...)` would produce.
- The optional `description` and `merchant` are `Option<string>`. They count
  as falsy when absent or empty.
- `addTransaction`'s `false` becomes `InvalidCategory(id)`.
- `slice(0, limit)` keeps ECMAScript's meaning for a negative `limit`: it
  drops that many records from the end. The only documented use is the
  default of 5 (src/stores/transactions.js:12); the model follows the code.
- `formatDateForDisplay` is modelled on every string, not only on dates. A
  missing piece prints as `undefined`, as the template string does, and
  pieces after the third are dropped.

## Model

| member | source | states |
|---|---|---|
| `CategoryTable.Find` | src/stores/transactions.js:191 | finds nothing exactly when no category has the id; otherwise the result has that id and is the first table row that does |
| `CategoryTable.TableIds` | src/stores/transactions.js:32-117 | the table has fourteen rows and row i has id i + 1 |
| `CategoryTable.LookupInTable` | src/stores/transactions.js:32-117 | an id is found exactly when it lies in 1..14, and it then resolves to row id − 1 |
| `CategoryTable.FindInNumbered` | src/stores/transactions.js:191 | in a table whose row i has id i + 1, `find` by id succeeds exactly for ids 1..n and returns row id − 1 |
| `CategoryTable.FoundNameIsCategoryName` | src/stores/transactions.js:191-202 | a resolved category's name is one of the table's names and is not empty |
| `Strings.Split` | src/stores/transactions.js:236 | splitting yields at least one piece, even for the empty string |
| `Strings.SplitPieces` | src/stores/transactions.js:236 | no piece contains the separator; joining the pieces gives the string back; a string without a separator is its own single piece |
| `Strings.SplitAtSeparator` | src/stores/transactions.js:236 | a separator after a separator-free prefix ends the first piece, and the rest splits independently |
| `Strings.SplitJoin` | src/stores/transactions.js:236 | splitting a join of separator-free pieces returns exactly those pieces |
| `Dates.FormatDateForDisplay` | src/stores/transactions.js:235-239 | no ensures of its own (split on `-`, print pieces 2, 3, 1 joined by `-`, a missing piece as `undefined`); its meaning is stated by `FormatWithoutDash`, `FormatThreePieces`, `FormatWellFormed` and `FormatInjective` |
| `Dates.FormatWithoutDash` | src/stores/transactions.js:235-239 | a string without `-` is printed as `undefined-undefined-` followed by the string |
| `Dates.FormatThreePieces` | src/stores/transactions.js:235-239 | `Y-M-D` with dash-free pieces is shown as `M-D-Y`, and splitting that on `-` gives `[M, D, Y]` |
| `Dates.FormatWellFormed` | src/stores/transactions.js:235-239 | a well-formed date is shown as its month, day and year digits joined by `-`, in `MM-DD-YYYY` layout, with the same calendar key |
| `Dates.FormatInjective` | src/stores/transactions.js:235-239 | two well-formed dates shown alike are the same date |
| `Dates.DateKey` | src/stores/transactions.js:219 | no ensures of its own (year·10000 + month·100 + day, standing for the timestamp `new Date(date)`); `DateKeyIsCalendarOrder` proves it orders dates as the calendar does |
| `Dates.DateKeyIsCalendarOrder` | src/stores/transactions.js:219 | one date's key is smaller than another's exactly when it is an earlier calendar day, and keys are equal exactly when the dates are |
| `Dates.DigitsInjective` | src/stores/transactions.js:219 | equal-length digit strings with the same value are equal |
| `Records.ToStored` | src/stores/transactions.js:200-206 | the stored record has the category's name, the date and texts as given, and an amount that, divided by 20, is the input amount |
| `Records.ToDisplay` | src/stores/transactions.js:223-229 | category passes through; the amount times 20 is the stored amount; a falsy description shows as `Transaction` and a present one as itself; a falsy merchant shows as the category and a present one as itself; the description is never empty, nor is the merchant when the category is not |
| `Records.DisplayOfStored` | src/stores/transactions.js:203 | for every input, an added record is displayed with the amount entered, its category name, and its own description and merchant when these are not falsy; a well-formed date is displayed as `MM-DD-YYYY` |
| `Recent.DateOrder` | src/stores/transactions.js:219 | no ensures of its own: the sort key of a record, its date's calendar key (0 for a date that is not well formed, a case `RecentView` excludes); the comparator `new Date(b.date) - new Date(a.date)` is modelled by sorting on it descending, stated by `SortNewestFirstCorrect` |
| `Recent.Insert` | src/stores/transactions.js:219 | inserting adds exactly that record and keeps a descending sequence descending |
| `Recent.SortByKey` | src/stores/transactions.js:219 | the sorted sequence is a permutation of the input, in descending key order |
| `Recent.SortNewestFirst` | src/stores/transactions.js:218-219 | the sorted copy has the same length and the same records (a permutation); newest-first order is stated by `SortNewestFirstCorrect` |
| `Recent.SortNewestFirstCorrect` | src/stores/transactions.js:218-219 | sorting by date keeps the same records, all with well-formed dates, with no later date after an earlier one |
| `Recent.SortHeadIsUniqueMax` | src/stores/transactions.js:219 | a record with a strictly larger key than all others comes first |
| `Recent.PrependDescending` | src/stores/transactions.js:219 | a head whose key bounds every entry keeps a descending sequence descending |
| `Recent.SliceEnd` | src/stores/transactions.js:220 | `slice(0, limit)` never goes past the end, nor past a non-negative limit |
| `Recent.MapDisplay` | src/stores/transactions.js:221-230 | the map has one display record per record, in the same order |
| `Recent.RecentView` | src/stores/transactions.js:218-230 | requires well-formed dates; never longer than the store nor than a non-negative limit; exact length, order and content stated by `RecentLength`, `RecentIsPrefixOfArrangement`, `RecentNewestFirst`, `RecentKeepsNewest`, `DroppedAreNoNewer` and `RecentEntriesAreStored` |
| `Recent.RecentLength` | src/stores/transactions.js:216-220 | a non-negative limit gives `min(limit, n)` entries and no limit gives `min(5, n)`; a limit of 0 gives none; a negative limit drops that many entries from the end |
| `Recent.RecentIsPrefixOfArrangement` | src/stores/transactions.js:218-221 | the recent list is the display form of the first entries of some newest-first permutation of the stored records |
| `Recent.RecentDisplayKeys` | src/stores/transactions.js:219-224 | every displayed date is in `MM-DD-YYYY` layout and carries the calendar key of the sorted record it comes from |
| `Recent.RecentNewestFirst` | src/stores/transactions.js:219-224 | read as `MM-DD-YYYY` dates, the recent list never shows a later date after an earlier one |
| `Recent.PrefixHoldsNewest` | src/stores/transactions.js:219-220 | in a newest-first sequence, a record outside the first n is no newer than any of them |
| `Recent.RecentKeepsNewest` | src/stores/transactions.js:218-220 | a stored record whose display form the list does not show is dated no later than every date it shows |
| `Recent.DroppedAreNoNewer` | src/stores/transactions.js:218-220 | every record of the sorted copy at or past the `slice` cut, duplicates of listed ones included, is dated no later than every date the list shows |
| `Recent.MapDisplayCons` | src/stores/transactions.js:221 | mapping to display form maps the first record, then the rest |
| `Recent.MapDisplayInsert` | src/stores/transactions.js:219-221 | inserting a record adds exactly its display form to the multiset of display forms |
| `Recent.MapDisplaySort` | src/stores/transactions.js:219-221 | sorting leaves the multiset of display forms unchanged |
| `Recent.RecentShowsAllWhenLimitCovers` | src/stores/transactions.js:218-230 | when the limit covers every record, the list shows each stored record exactly once |
| `Recent.RecentOfSingle` | src/stores/transactions.js:216-230 | a store of one record with a well-formed date lists exactly that record's display form for any positive limit |
| `Recent.RecentEntriesAreStored` | src/stores/transactions.js:221-230 | every entry of the list is the display form of a stored record |
| `Store.TransactionsStore.constructor` | src/stores/transactions.js:183 | a new store holds no records and satisfies the store invariant |
| `Store.TransactionsStore.GetAllTransactions` | src/stores/transactions.js:185-187 | the result holds the stored records in insertion order, and every one names a table category |
| `Store.TransactionsStore.AddTransaction` | src/stores/transactions.js:189-214 | succeeds exactly when the id is in the table (1..14); on failure returns the id and leaves the list unchanged; on success appends exactly the returned record, which has the category's name, 20 × the amount and the input's date, description and merchant; keeps every stored category a table name |
| `Store.TransactionsStore.GetRecentTransactions` | src/stores/transactions.js:216-231 | gives `min(limit, n)` entries (default 5), in `MM-DD-YYYY` layout, never a later date after an earlier one, each the display of a stored record |
| `Store.NewestAdditionHeadsRecent` | src/stores/transactions.js:211-221 | a record appended with a date later than all stored ones heads the recent list for any positive limit |
| `Store.ExampleRecentView` | src/stores/transactions.js:216-239 | the documented lunch record is listed back as `09-01-2024`, `Food`, `Lunch`, 15.75, `Restaurant` |
| `Store.ExampleDateDisplay` | src/stores/transactions.js:235-239 | the documented date `2024-09-01` is shown as `09-01-2024` |
| `Store.DocumentedExample` | src/stores/transactions.js:22-29 | no ensures of its own: replays the usage comment on a new store; its assertions check that lunch in category 3 is stored with amount 315 under `Food`, that id 999 is refused and leaves the list as it was, and that `getRecentTransactions(1)` shows `09-01-2024`, `Food`, `Lunch`, 15.75, `Restaurant` |

## Left out

- `Store.TransactionsStore.GetRecentTransactions`: requires every stored date to be a well-formed `YYYY-MM-DD` calendar date. Otherwise `new Date(...)` parses by engine-specific rules. Some strings give an invalid date, so the comparator returns NaN and the order depends on the host's sort. Others (`2024-9-1`, `2024-09-01T10:00`) give valid times that the calendar key does not model.
- `Recent.RecentView`: has the same well-formed-date precondition for the same reason.
- `addTransaction` accepts any date string, and the model does too. Only listing recent records needs well-formed dates.
- The relative order of records with equal dates is not stated by the model's contracts. `Array.prototype.sort` is stable since ECMAScript 2019, so the source keeps equal dates in insertion order; the model's insertion sort puts a record before later ones with an equal key as well, but no lemma states stability.
- `new Date(...)` parsing, time zones and millisecond subtraction are replaced by the calendar key. Calendar dates outside the month's length (e.g. `2024-02-30`), which engines treat differently, are excluded by well-formedness.
- `parseFloat` and IEEE-754 arithmetic are not modelled. Amounts are exact numbers already parsed, so NaN from a malformed amount and rounding in ×20/÷20 are out of scope.
- A category id that is not a number (e.g. the string `"3"`) never matches under `===`. The model's input id is an integer, so this case is not represented.
- `limit` values that are not integers (fractions, NaN, ±Infinity) are not modelled. `limit` is an integer.
- Falsy values other than an absent or empty text (`null`, `0`, `false`) are not represented for `description` and `merchant`.
- Object identity is not modelled. In the source, the record returned by `addTransaction` and the records in `getAllTransactions`' shallow copy are the same objects as the stored ones, so a caller could mutate stored records through them. Records here are values.
- `console.error` and `console.log` diagnostics (lines 193, 197, 208) are output only.
- The `categoryIcons` map (lines 120-177) holds presentation data that no store logic reads.
- The module-level default instance (line 248) is module plumbing. The class constructor creates a fresh, empty store.
