# Swimming practice log — a verified model of the server handlers

This project models the core of a swimming-practice tracker's server: the one
`swimming_practices` table and the handlers that act on it.

- **create** inserts a practice. The serial counter assigns its id and the
  insertion time becomes `created_at`.
- **get** returns one practice by id, or null when there is none.
- **update** is a partial update. Only the supplied fields are written. A
  missing id gives null and changes nothing.
- **delete** removes a practice and reports whether a row was removed.
- **list** filters the practices by stroke and by an inclusive date range. It
  orders them most recent first and returns one `limit`/`offset` page.
- **statistics** summarises the practices in an inclusive date range:
  - the count, total distance and total time;
  - the averages rounded to hundredths;
  - the count of every stroke;
  - the first most common stroke, in the order the stroke enum declares them.

The model has five modules.

- `Schema` (schema.dfy) holds the record, input and query types and the
  constraints zod enforces on them.
- `Filters` (filters.dfy) holds the WHERE-condition list that both the
  listing and the statistics build one push at a time, and its declarative
  meaning.
- `Statistics` (statistics.dfy) holds the statistics handler. It is a
  method over a sequence of rows, proved against specification functions.
- `Listing` (listing.dfy) holds the listing handler: selection, ORDER BY
  date DESC and LIMIT/OFFSET.
- `Store` (store.dfy) holds the table. It is a class with a `rows` map keyed
  by id and a `nextId` serial counter. Its methods are create, update and
  delete; get is a function that reads the table. Listing and statistics
  run over a scan of the rows in ascending id order.

The listing query orders by date alone (`orderBy(desc(date))`,
server/src/handlers/get_swimming_practices.ts:37). Practices on the same date
come back in whatever order the database chooses, and `Listing.SortByDateDesc`
promises only the same records with non-increasing dates.

## Model

| member | source | states |
|---|---|---|
| Schema.Position | server/src/schema.ts:4-10 | Each of the five strokes sits at exactly one index of the declared order Freestyle, Breaststroke, Backstroke, Butterfly, IM |
| Schema.AsCreateInput | server/src/schema.ts:15-34 | A stored record is valid (integer duration >= 1, distance > 0) exactly when its user-chosen fields form a valid create input |
| Schema.Stored | server/src/handlers/create_swimming_practice.ts:8-17 | The inserted row carries exactly the input's fields plus the assigned id and timestamp, and is valid exactly when the input is |
| Filters.BuildConditions | server/src/handlers/get_swimming_practices.ts:9-26 | Pushing one condition per given filter yields at most three conditions whose conjunction holds of a row exactly when every given filter holds (stroke equal, date >= from, date <= to) |
| Filters.Where | server/src/handlers/get_swimming_practices.ts:33-36 | A SELECT with the conditions returns no more rows than the table, and a row is returned exactly when it is in the table and meets every condition |
| Filters.Selected | server/src/handlers/get_practice_statistics.ts:34-41 | The matching rows: a row is kept exactly when it is in the table and meets each given filter, bounds inclusive |
| Filters.WhereIsSelected | server/src/handlers/get_practice_statistics.ts:23-41 | A condition list equivalent to the filters selects exactly the matching rows, in table order, whether there are zero, one or several conditions |
| Filters.DateRangeScenario | server/src/tests/get_practice_statistics.test.ts:116-131 | Of practices on the 10th, 15th, 20th and 25th, the range 12th to 22nd keeps exactly the 15th and the 20th |
| Statistics.CountOf | server/src/handlers/get_practice_statistics.ts:61 | The count of a stroke never exceeds the number of practices |
| Statistics.Distribution | server/src/handlers/get_practice_statistics.ts:44-50 | The distribution has an entry for every stroke, even with no practices, and no entry exceeds the number of practices |
| Statistics.DistributionSum | server/src/handlers/get_practice_statistics.ts:53-62 | The five stroke counts add up to the number of practices |
| Statistics.NoPracticesIffAllZero | server/src/handlers/get_practice_statistics.ts:79-82 | There are no practices exactly when every stroke count is zero, so the `maxCount === 0` check yields null exactly on an empty selection |
| Statistics.RoundToHundredths | server/src/handlers/get_practice_statistics.ts:88-89 | `Math.round(x * 100) / 100` is a whole number of hundredths in (x - 0.005, x + 0.005], which fixes it as the hundredth nearest x with halves rounded up |
| Statistics.FirstMostCommonUnique | server/src/handlers/get_practice_statistics.ts:72-77 | The strict `>` scan breaks ties one way only: at most one stroke is the first most common |
| Statistics.SummaryUnique | server/src/handlers/get_practice_statistics.ts:84-92 | The statistics of a selection are fully determined by it |
| Statistics.EmptySummary | server/src/tests/get_practice_statistics.test.ts:34-50 | Over no practices, every total, average and stroke count is 0 and the most common stroke is null |
| Statistics.ThreePracticeScenario | server/src/tests/get_practice_statistics.test.ts:72-95 | Freestyle 60/2000, Breaststroke 45/1500 and Freestyle 75/2500 give 3 practices, 6000, 180 minutes, averages 2000 and 60, counts 2/1/0/0/0 and most common Freestyle |
| Statistics.FourPracticeTieScenario | server/src/tests/get_practice_statistics.test.ts:179-195 | Freestyle, Breaststroke, Freestyle, Breaststroke give 4 practices, two of each stroke, and the tie goes to Freestyle, declared first |
| Statistics.MostCommonStroke | server/src/handlers/get_practice_statistics.ts:68-82 | The result is null exactly when every count is zero; otherwise it is a stroke with the largest positive count, and every stroke declared before it has a strictly smaller count |
| Statistics.Accumulate | server/src/handlers/get_practice_statistics.ts:52-62 | The loop's totals equal the sums of the distances and durations, and its distribution equals the count of each stroke |
| Statistics.GetPracticeStatistics | server/src/handlers/get_practice_statistics.ts:17-92 | The result summarises exactly the practices in the inclusive date range: count, totals, rounded averages (0 when empty), the full distribution and the first most common stroke |
| Listing.InsertByDate | server/src/handlers/get_swimming_practices.ts:37 | Inserting into a most-recent-first sequence keeps it most recent first and adds exactly that record |
| Listing.SortByDateDesc | server/src/handlers/get_swimming_practices.ts:37 | ORDER BY date DESC returns the same records (as a multiset) with dates non-increasing |
| Listing.SortKeepsDatesDistinct | server/src/handlers/get_swimming_practices.ts:43 | Sorting records with distinct dates keeps their dates distinct |
| Listing.Page | server/src/handlers/get_swimming_practices.ts:38-39 | LIMIT/OFFSET returns min(limit, max(0, n - offset)) records, the i-th being the (offset + i)-th input record |
| Listing.PageWithin | server/src/handlers/get_swimming_practices.ts:38-39 | A page repeats no record more often than the input holds it, and the page at offset 0 whose limit covers the input is the whole input |
| Listing.LimitOrDefault | server/src/handlers/get_swimming_practices.ts:29 | An absent limit is 50 and a given (positive) limit is used as is, so the limit is at least 1 for every valid query |
| Listing.OffsetOrDefault | server/src/handlers/get_swimming_practices.ts:30 | An absent offset is 0 and a given offset is used as is, so the offset is never negative for a valid query |
| Listing.Listing | server/src/handlers/get_swimming_practices.ts:6-53 | Every returned record is a stored row meeting every given filter; the records come most recent first; there are min(limit, max(0, matches - offset)) of them; no record appears more often than among the matches; and at offset 0 with a limit covering all matches, exactly the matches are returned |
| Listing.GetSwimmingPractices | server/src/handlers/get_swimming_practices.ts:9-46 | Building the conditions, selecting, ordering and paging returns exactly the specified listing |
| Listing.NothingMatchesEmptyListing | server/src/tests/get_swimming_practices.test.ts:223-242 | When no row meets the filters (an empty table or an empty date range), the listing is empty |
| Listing.PagesDisjoint | server/src/tests/get_swimming_practices.test.ts:139-161 | Over rows with distinct dates, two pages with the same filters whose windows do not overlap share no record |
| Listing.MostRecentFirstScenario | server/src/tests/get_swimming_practices.test.ts:41-69 | Practices on the 1st and the 2nd, listed with no query, come back as the 2nd then the 1st |
| Store.ScanMembers | server/src/db/schema.ts:14 | A scan of the serial id range meets exactly the stored rows in that range, with their stored values |
| Store.Patched | server/src/handlers/update_swimming_practice.ts:19-39 | A partial update never changes `id` or `created_at` and keeps a valid record valid when the input is valid |
| Store.PatchedNotes | server/src/handlers/update_swimming_practice.ts:37-39 | `notes: null` clears the notes, an absent `notes` keeps them, and a string replaces them |
| Store.EmptyPatchChangesNothing | server/src/handlers/update_swimming_practice.ts:19-39 | An update that supplies no field leaves the record as it was |
| Store.LastWriteWins | server/src/tests/update_swimming_practice.test.ts:160-176 | When a later update supplies every field an earlier one did, the earlier one leaves no trace |
| Store.PracticeStore.constructor | server/src/db/schema.ts:13-21 | A new table is empty and its serial counter starts at 1 |
| Store.PracticeStore.Get | server/src/handlers/get_swimming_practice.ts:9-24 | Returns the stored record exactly when the id is present and null otherwise, never an error; ids below 1 (zero, negative) are always null |
| Store.PracticeStore.Create | server/src/handlers/create_swimming_practice.ts:8-24 | Stores the input under the id the serial counter hands out, advances the counter (so no id is issued twice, even after a delete), sets `created_at` to the insertion time, adds exactly one row, returns the stored record, and keeps the table valid |
| Store.PracticeStore.Update | server/src/handlers/update_swimming_practice.ts:9-54 | A missing id returns null and changes nothing; otherwise exactly that row becomes the patched record, which is returned, and the counter is untouched |
| Store.PracticeStore.Delete | server/src/handlers/delete_swimming_practice.ts:8-13 | Returns true exactly when the id was present; afterwards the id is gone, every other row is unchanged, and the table shrank by one row when true |
| Store.PracticeStore.PracticeStatistics | server/src/handlers/get_practice_statistics.ts:17-92 | The statistics summarise exactly the stored rows in the inclusive date range |
| Store.PracticeStore.ListPractices | server/src/handlers/get_swimming_practices.ts:6-53 | Returns the specified listing of the stored rows, and every returned record is a stored row |

## Left out

- Floating point: distances are exact reals. The `real` column's single precision is not modelled, nor JavaScript's binary doubles inside `Math.round`.
- Dates are day numbers. The JavaScript `Date` objects, `toISOString().split('T')[0]` and time-zone shifts are not modelled. Only the order of days matters to the handlers.
- `created_at` (`defaultNow()`) is the parameter `now` of `Create`. The clock is not modelled.
- The database driver and its errors are not modelled: the drizzle/PostgreSQL calls, the `try`/`catch` blocks that log and rethrow, and `rowCount ?? 0`. A handler here never fails.
- Zod parsing and coercion are not modelled. Inputs are assumed already parsed; the constraints zod enforces are the `Valid…` predicates in the `requires` clauses.
- The tRPC router, the HTTP server and the client UI are not modelled.
- `Listing.GetSwimmingPractices`: an absent `query` is modelled as a query with every field absent. The separate zero-, one- and many-condition branches of the query collapse into one conjunction, which has the same rows.
- `Listing.SortByDateDesc`: the order among practices with the same date is not fixed. The database does not fix it either.
- `Statistics.GetPracticeStatistics`: the one handler body is split into `Accumulate` and `MostCommonStroke`, which together do the same steps in the same order.
- `Store.PracticeStore.Update`: an update that supplies no field leaves the row unchanged. How the query builder reacts to an empty SET list is not modelled.
- `Store.PracticeStore.Delete`: concurrent deletes are not modelled. The table is used by one caller at a time.
- Module loading, `db/index.ts` and the migration files are not part of this model.
