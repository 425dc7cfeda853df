# Vehicle-registration snapshot diff — a Dafny model

This project models the change-tracking core of the OLA Electric two-wheeler
registration collector (`fetch_data.py`). On each run the collector takes
today's per-period registration counts (period label `yearAsString`, count
`registeredVehicleCount`) and does three things:

1. If a previous snapshot file exists, it inner-joins today's rows with it on
   the period label. It computes `change = today - previous`, drops zero
   changes and stamps the rest with today's date.
2. If any change survived, it appends the change rows `(date, yearAsString, change)`
   to the daily-changes ledger, creating the ledger if it does not exist yet.
3. It always overwrites the snapshot with today's rows, each stamped `fetch_date = today`.

Modules:

- `Wrappers` — `Option`, used for "file exists / does not exist".
- `Tables` — the row types `Reading`, `SnapRow` and `ChangeRow`, and the label lookup the join uses.
- `Changes` — `Diff` is the join, change, filter and stamp step; `Reconcile` adds the cold-start case.
- `Store` — `NewSnapshot`, `AppendLedger`, a single run `Step` over the on-disk `State`, and `Run`, a sequence of runs.

The network fetch, the clock and the file system are inputs. Today's readings
and the date are parameters. Whether each file exists, and its contents, is the
`State`.

Facts about the collector that the model keeps:

- The ledger holds one row per changed period.
- Rows are appended to the ledger.
- A zero change is not written.
- The ledger date is the run's own date.
- One manufacturer is tracked.

## Model

| member | source | states |
|---|---|---|
| `Changes.Diff` | fetch_data.py:59-69 | at most one change row per today row; every row carries the run's date and a non-zero change |
| `Changes.Reconcile` | fetch_data.py:55-69 | with no previous snapshot (first run) no change row is produced; otherwise every row is dated today and non-zero; needs unique labels in the previous snapshot |
| `Changes.DiffSound` | fetch_data.py:60-67 | each change row's label occurs in today's rows and in the previous rows, and its change is today's count minus the previous count for that label, so a label on only one side never appears |
| `Changes.DiffComplete` | fetch_data.py:60-68 | every label present on both sides with differing counts yields the row (date, label, today − previous) |
| `Changes.DiffOrder` | fetch_data.py:60-64 | change rows keep the order of today's rows (the join keeps the left frame's order) |
| `Changes.DiffEmptyIff` | fetch_data.py:67-71 | no change row is produced if and only if every today row is absent from, or has the same count in, the previous rows |
| `Store.NewSnapshot` | fetch_data.py:46-48 | every row of the saved snapshot is stamped with the run's date, and dropping that stamp gives back exactly today's rows, in order |
| `Store.AppendLedger` | fetch_data.py:72-77 | the old ledger rows are an unchanged prefix and the new rows follow; a missing ledger becomes exactly the new rows |
| `Store.Step` | fetch_data.py:55-88 | snapshot replaced wholesale by today's stamped rows; ledger untouched on a first run; an existing ledger stays and keeps its rows as a prefix; the invariant (unique snapshot labels, no zero change in the ledger) is preserved |
| `Store.StepLedger` | fetch_data.py:71-82 | after a run the ledger is unchanged when there are no change rows, else it is the old rows (none if it was missing) followed by exactly this run's change rows |
| `Store.StepLedgerUnchangedIff` | fetch_data.py:56-82 | the ledger is neither rewritten nor created if and only if there was no previous snapshot or every today row agrees with it |
| `Store.StepRepeatNoChange` | fetch_data.py:56-88 | fetching the same readings on a later run produces no change rows and leaves the ledger as it was |
| `Store.Run` | fetch_data.py:56-88 | over any sequence of runs the ledger only grows by appending, never disappears once created, the invariant holds, and the snapshot is the last run's readings |
| `Store.RunNewRowsDated` | fetch_data.py:67-75 | every ledger row added by a sequence of runs has a non-zero change and the date of one of those runs |

## Left out

- The HTTP request, `raise_for_status` and JSON decoding (fetch_data.py:42-44) are network I/O. Today's readings are a parameter.
- `datetime.utcnow()` and the `%Y-%m-%d` formatting (fetch_data.py:47): the date is an opaque parameter.
- `os.makedirs`, `os.path.exists` and the CSV reads and writes (fetch_data.py:51-57, 74, 79, 88) are file system I/O. File existence is an `Option`; file contents are sequences; a write is the new `State`.
- The `print` messages (fetch_data.py:80, 82, 85, 89) are console output only.
- The request constants `URL`, `PARAMS` and `HEADERS` (fetch_data.py:18-39) are transport configuration.
- Store.NewSnapshot: pandas writes every column of the upstream response to the snapshot. The model keeps only the period label and the count, the only columns the join reads back.
- Changes.Reconcile: duplicate labels in the previous snapshot are excluded by a precondition. pandas would emit one joined row per matching pair (a cartesian product); the model's lookup would take only the first. Duplicates in today's rows need no precondition: each today row joins at most one previous row, as in pandas.
- An empty upstream response is treated as an empty table, which differs from the source. On a first run the source stores a snapshot whose only column is `fetch_date` (fetch_data.py:48, 88). Every later run then raises a `KeyError` at fetch_data.py:61, before the snapshot is rewritten, so the collector fails until that file is deleted. When a snapshot already exists, an empty response raises a `KeyError` at the merge on `yearAsString` (fetch_data.py:60-64). The model instead stores an empty snapshot and carries on; these failure paths are not modelled.
- CSV reload dtype coercion is not modelled: counts and changes are unbounded integers.
