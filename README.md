# Poll data-access layer — a Dafny model

A model of the data-access layer of the hidden-polls web service (`main.go`). This layer sits
between the HTTP handlers and a PostgreSQL database. It does five things:

- looks a poll up by id;
- finds the newest open poll;
- lists a poll's choices;
- tallies a poll's results: per-choice vote counts, the vote total, and each choice's share;
- records a vote through a conditional insert that accepts only a choice of that poll.

The database is an abstract value `Tables.Db` with three tables, each a sequence of rows:
`polls` (id, name, open flag, creation time), `choices` (id, poll id, answer text, creation
time) and `answers` (the referenced choice id). `Tables.Consistent` states the schema's
constraints: unique poll ids, unique choice ids, every choice belongs to an existing poll, and
every answer references an existing choice.

Each SQL statement has its relational meaning as a function in module `Queries`:

- `PollsWithId` is the `WHERE id = $1` filter.
- `LatestOpenRows` is the open polls ordered by `created_at` descending.
- `ChoicesOf` is the `poll_id` filter ordered by `id`.
- `Counted` is the outer join of the poll's choices to `answers`, grouped per choice.
  `JoinRows` states what the database may return for the results query: those rows, in any
  order with non-increasing counts. `ResultRows` is one such answer.
- `Selected` and `AfterAnswer` are the rows inserted by `INSERT ... SELECT` and the resulting
  database.

`ORDER BY` is a stable insertion sort on an integer key (module `Ordering`). Where the SQL
gives no tie-break, the model promises only the ordering the SQL states. `GetResults` takes
the join rows as an input constrained by `JoinRows`, so its properties hold for every tie
order. `GetLatest` uses the sort, but its contract promises only an open poll that no other
open poll is newer than.

The data-access object is the class `Dal.PollDAL`. It holds the database in a field, and its
methods follow the Go code statement by statement:

- `GetChoices` copies the result rows in a loop.
- `GetResults` looks the poll up, then hands the join rows to `Summarize`. That method builds
  the summaries and the vote total in one loop. When the total is positive, a second loop
  sets each percentage in place.
- `Answer` replaces the `answers` table.

Every call into the database driver can fail. Each such call gets its own `Option<Failure>`
parameter, and `Failure` is opaque:

- the query of `GetByID`, `GetLatest` and `GetChoices`;
- both queries of `GetResults`;
- `Exec` and `RowsAffected` in `Answer`.

Percentages are reals, so `float64(count) / float64(total)` is modelled as exact division.

Where the intended behaviour and the code disagree, the model follows the code:

- Results are meant to break count ties by choice order. The query has no tie-break, so the
  model promises only non-increasing counts.
- A storage failure during a vote is meant to be reported as a storage error. The code returns
  `nil` when `Exec` fails. `Dal.PollDAL.Answer` models the code, and the finding below records
  the difference. `Dal.PollDAL.AnswerCorrected` models the intended behaviour.
- An answer row has its own id and creation time. The layer never reads either, so the model
  keeps only the choice reference.

## Model

| member | source | states |
|---|---|---|
| `Queries.PollsWithId` | main.go:67 | the rows of the id query are exactly the polls whose id is the requested one |
| `Queries.PollsWithIdAtMostOne` | main.go:76-79 | with unique poll ids the id query has at most one row, so `rows.Next()` sees the only match |
| `Queries.OpenPolls` | main.go:85 | the `is_open = true` filter keeps exactly the open polls |
| `Queries.LatestOpenRowsFirst` | main.go:84-100 | the latest-poll query has a first row iff some poll is open; that row is an open poll created no earlier than any other open poll |
| `Queries.PollChoices` | main.go:103 | the `poll_id = $1` filter keeps exactly the poll's choices |
| `Queries.ChoicesOfMembers` | main.go:102-120 | the choices query returns a choice iff it belongs to the poll |
| `Queries.ChoicesOfAscending` | main.go:103 | with unique choice ids the choices come in strictly ascending id order |
| `Queries.ChoicesOfUnknownPoll` | main.go:102-120 | for a poll id that no poll has, the choices query is empty (an empty list, not `notFound`) |
| `Queries.ResultRowsAnswer` | main.go:123-127 | the database can always answer the results query: the grouped join rows sorted by descending count are a valid answer |
| `Queries.JoinRowsMembers` | main.go:123-127 | in any valid answer, a row is a choice of the poll paired with the number of answers referencing it, and every such pair is a row, so choices without votes appear with count 0 |
| `Queries.JoinRowsOnePerChoice` | main.go:123-126 | with unique choice ids, any valid answer has exactly one row per choice of the poll |
| `Queries.JoinRowsTotal` | main.go:123-127 | in any valid answer, the row counts add up to the number of answers recorded for the poll's choices |
| `Queries.SumCountsPermutation` | main.go:148-153 | reordering the rows does not change the vote total, so every tie order gives the same total |
| `Queries.TallyPointwise` | main.go:148-159 | summaries that carry each row's choice, count and share, in row order, are exactly the tally |
| `Queries.TallyAt` | main.go:148-159 | summary k carries row k's choice and count, and its share of the total (0 when the total is 0) |
| `Queries.TallyCounts` | main.go:146-153 | the summaries' counts add up to the rows' counts |
| `Queries.TallyShares` | main.go:155-159 | for a positive total, the percentages add up to the rows' count sum divided by that total |
| `Queries.ResultCountsAgree` | main.go:146-162 | for any valid join answer, `Result.Count` equals the sum of the summary counts, and each summary is a choice of the poll with its answer count |
| `Queries.ResultCoversChoices` | main.go:123-126 | for any valid join answer, every choice of the poll has a summary with its answer count |
| `Queries.ResultOrderAndTotal` | main.go:127-162 | for any valid join answer, no choice has two summaries, summaries are ordered by non-increasing count, and `Result.Count` is the number of answers recorded for the poll |
| `Queries.ResultPercentages` | main.go:155-160 | for any rows: with 0 votes every percentage stays 0; otherwise each is count / total, and they sum to 1 |
| `Queries.SelectedOneOrNone` | main.go:168-169 | `INSERT ... SELECT` inserts exactly one answer for the choice when that choice belongs to the poll, and none otherwise |
| `Queries.AnswerEffect` | main.go:167-181 | a valid vote raises its choice's count by one and no other count; polls and choices are unchanged; an invalid vote changes nothing |
| `Queries.AnswerKeepsConsistent` | main.go:168-169 | the insert keeps the schema's constraints: the new answer references an existing choice |
| `Queries.RepeatedVotesCountTwice` | main.go:167-181 | there is no deduplication: two identical valid votes raise the count by 2 |
| `Queries.DifferentVotesBothCounted` | main.go:167-181 | valid votes for two different choices are both counted |
| `Dal.CorrectedAnswerStatus` | main.go:171-181 | corrected status: success iff neither driver call failed and a row was inserted; each driver failure is returned as a storage error; zero rows is `NotFound` |
| `Dal.ExecFailureReportedAsSuccess` | main.go:171-174 | as written, a failed `Exec` with nothing inserted reports success |
| `Dal.PollDAL.constructor` | main.go:62-64 | the data-access object wraps a database that satisfies the schema's constraints |
| `Dal.PollDAL.GetByID` | main.go:66-82 | a query failure is returned unchanged; otherwise the result is the poll with that id when one exists, else `NotFound` |
| `Dal.PollDAL.GetLatest` | main.go:84-100 | a query failure is returned unchanged; otherwise the result is an open poll created no earlier than any other open poll, or `NotFound` when none is open |
| `Dal.PollDAL.GetChoices` | main.go:102-120 | a query failure is returned unchanged; otherwise the result is exactly the poll's choices in strictly ascending id order, and empty for an unknown poll |
| `Dal.Summarize` | main.go:145-162 | the loops yield the rows' vote total and, in row order, one summary per row with its choice, count and share of that total |
| `Dal.PollDAL.GetResults` | main.go:122-165 | the `GetByID` error (a failure or `NotFound`) is returned unchanged, then a failure of the join query; otherwise the result is the requested poll with the summaries and total that `Queries.ResultsFrom` gives for the rows the database returned, whatever their tie order |
| `Dal.PollDAL.Answer` | main.go:167-182 | as written: a failed `Exec` records nothing and returns success; otherwise one answer is appended iff the choice belongs to the poll; a `RowsAffected` failure is returned unchanged; zero rows gives `NotFound`; polls and choices never change; the consistency constraints hold afterwards |
| `Dal.PollDAL.AnswerCorrected` | main.go:167-182 | corrected: a failed `Exec` records nothing and is returned as a storage error; otherwise one answer is appended iff the choice belongs to the poll, a `RowsAffected` failure is returned as a storage error, success holds iff the choice belongs to the poll, and any other outcome is `NotFound`; success implies exactly one answer for the choice was appended; polls and choices never change; the consistency constraints hold afterwards |
| `Scenarios.ThreeVotesRecorded` | main.go:167-181 | example: three valid votes (10, 10, 11) append three answers in order |
| `Scenarios.ThreeVotesRows` | main.go:123-127 | example: after votes 10, 10, 11 every valid answer to the results query is row 10 (2 votes) then row 11 (1 vote) |
| `Scenarios.ThreeVotesTally` | main.go:122-165 | example: for any valid join answer after two votes for choice 10 and one for choice 11, the summaries are 10 (2 votes, 2/3), then 11 (1 vote, 1/3), with total 3 |
| `Scenarios.ForeignChoiceRecordsNothing` | main.go:167-181 | example: a vote for choice 999, which is not in poll 1, records nothing |

## Findings

| source | as written | input that shows it | evidently intended | confidence | as-written member | corrected member |
|---|---|---|---|---|---|---|
| main.go:171-174 | when `Exec` returns an error, `Answer` returns `nil` | `Exec` fails, for instance on a dropped connection: no answer is recorded and the caller is told the vote succeeded | return the driver error, so that a storage failure is reported as one | high (not executed) | `Dal.ExecFailureReportedAsSuccess` | `Dal.CorrectedAnswerStatus` |

## Left out

- HTTP handlers (`Results`, `Answer`, `Index`, `getPollID`, `layout`), the HTML templates and `init`: request parsing, status codes, redirects and rendering are transport and presentation code.
- `openDB`, the connection-pool limits `maxIdleConns`/`maxOpenConns`, and `main`: these are bootstrapping, environment variables and process exit.
- The database driver: cursor mechanics (`rows.Next`, `rows.Close`) are modelled as the query's result sequence. The errors of `rows.Scan`, which the source ignores, are not modelled.
- Floating-point rounding of `Percentage`: percentages are exact reals, so "sum to 1" is exact here while in `float64` it holds only up to rounding.
- 64-bit integers: ids and counts are unbounded. A `totalVotes` overflow past 2^63 - 1 is not modelled.
- Concurrency: the model is one sequential store. Atomicity between simultaneous requests and the non-isolated read of `GetResults` are out of scope.
- Timestamps: `created_at` is an abstract integer used only for the latest-poll order. `NOW()` and the answer's own id and creation time are not modelled.
- Heap references: `*poll`, `*choice` and `*summary` are modelled as values, so aliasing between the returned structures is not modelled.
- Tie order: which of several equally new open polls `GetLatest` returns is not promised. The SQL gives no tie-break; the model's sort picks one, and the contract states only what holds for every choice. `GetResults` accepts every tie order the query allows.
